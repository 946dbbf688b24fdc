/** What the writer prints is a text of RFC 8259 that stands for the value written. */
module WrittenTexts {
  import opened Common
  import opened Json
  import opened JsonTexts
  import opened NumberGrammar
  import opened Tokens
  import Utf8
  import Writers

  /** No floating-point number anywhere in the value. */
  predicate Plain(j: Value)
    decreases j
  {
    !j.Double?
    && (j.Array? ==> forall i | 0 <= i < |j.es| :: Plain(j.es[i]))
    && (j.Object? ==> forall i | 0 <= i < |j.ms| :: Plain(j.ms[i].value))
  }

  // ----- strings -----

  /** How the writer spells a byte of a string. */
  function CharOf(c: Byte): Char {
    match Writers.EscapeClass(c)
    case None => Itself(c)
    case Some(e) =>
      if e == LOWER_U then Unicode(['0' as int, '0' as int, HexDigit(c / 16), HexDigit(c % 16)]) else Short(e)
  }

  function CharsOf(s: Bytes): (cs: seq<Char>)
    ensures |cs| == |s|
  {
    seq(|s|, i requires 0 <= i < |s| => CharOf(s[i]))
  }

  lemma ByteWritten(c: Byte)
    ensures var r := CharOf(c); IsChar(r) && CharText(r) == Writers.EscapedByte(c) && CharBytes(r) == [c]
  {
    if Writers.EscapeClass(c) == Some(LOWER_U) {
      ControlWritten(c);
    }
    hide HexDigit, HexDigitValue, Utf8.Encoded;
  }

  lemma ControlWritten(c: Byte)
    requires c < 0x20
    ensures var digits := ['0' as int, '0' as int, HexDigit(c / 16), HexDigit(c % 16)];
      IsHex4(digits) && Hex4Value(digits) == c && Utf8.Encoded(c) == [c]
  {
    SameDigits('0' as int);
    SameDigits(HexDigit(c / 16));
    SameDigits(HexDigit(c % 16));
    assert HexDigitValue('0' as int) == Some(0);
    hide HexDigit, HexDigitValue, HexValue;
  }

  lemma {:induction false} CharsSnoc(cs: seq<Char>, c: Char)
    requires AreChars(cs) && IsChar(c)
    ensures AreChars(cs + [c])
    ensures CharsText(cs + [c]) == CharsText(cs) + CharText(c) && CharsBytes(cs + [c]) == CharsBytes(cs) + CharBytes(c)
    decreases |cs|
  {
    hide IsChar, CharText, CharBytes;
    if cs == [] {
      assert ([] + [c])[1..] == [] && [] + [c] == [c];
      assert CharText(c) + [] == [] + CharText(c) && CharBytes(c) + [] == [] + CharBytes(c);
    } else {
      assert (cs + [c])[1..] == cs[1..] + [c];
      CharsSnoc(cs[1..], c);
      Regrouped(CharText(cs[0]), CharsText(cs[1..]), CharText(c));
      Regrouped(CharBytes(cs[0]), CharsBytes(cs[1..]), CharBytes(c));
    }
  }

  lemma {:induction false} StringWritten(s: Bytes)
    ensures var cs := CharsOf(s);
      AreChars(cs) && CharsText(cs) == Writers.JsonEscaped(s) && CharsBytes(cs) == s && QuotedText(cs) == Writers.StringText(s)
    decreases |s|
  {
    hide CharOf, IsChar, CharText, CharBytes, Writers.EscapedByte;
    if s != [] {
      var n := |s| - 1;
      StringWritten(s[..n]);
      ByteWritten(s[n]);
      CharsSnoc(CharsOf(s[..n]), CharOf(s[n]));
      assert CharsOf(s) == CharsOf(s[..n]) + [CharOf(s[n])];
      assert s == s[..n] + [s[n]];
    }
  }

  // ----- values -----

  function LiteralOf(n: Int64Or): Literal {
    Literal(n < 0, DecText(if n < 0 then -n else n), [], [])
  }

  lemma NumberWritten(n: Int64Or)
    ensures var v := LiteralOf(n);
      IsNumber(v) && LiteralText(v) == IntText(n) && IsInteger64(v) && IntegerValue(v) == n && Exponent(v) == 0
  {
    var t := DecText(if n < 0 then -n else n);
    assert forall i | 0 <= i < |t| :: IsDigit(t[i]);
    hide DecText, DecValue;
    assert [] + t + [] + [] == t && ['-' as int] + t + [] + [] == ['-' as int] + t;
  }

  /** A value without floating-point numbers as the writer spells it. */
  function SpellingOf(j: Value): Spelling
    requires Plain(j)
    decreases j, 1
  {
    match j
    case Null => NullWord
    case Bool(b) => if b then TrueWord else FalseWord
    case Number(n) => NumberWord(LiteralOf(n))
    case String(s) => StringWord(CharsOf(s))
    case Array(es) => if es == [] then EmptyArray([]) else ArrayOf(ElementsOf(j, 0))
    case Object(ms) => if ms == [] then EmptyObject([]) else ObjectOf(MembersOf(j, 0))
  }

  function ElementsOf(j: Value, k: nat): Elements
    requires j.Array? && Plain(j) && k < |j.es|
    decreases j, 0, |j.es| - k
  {
    Elements([], SpellingOf(j.es[k]), [], if k + 1 == |j.es| then None else Some(ElementsOf(j, k + 1)))
  }

  function MembersOf(j: Value, k: nat): Members
    requires j.Object? && Plain(j) && k < |j.ms|
    decreases j, 0, |j.ms| - k
  {
    Members([], CharsOf(j.ms[k].name), [], [], SpellingOf(j.ms[k].value), [],
            if k + 1 == |j.ms| then None else Some(MembersOf(j, k + 1)))
  }

  /** A spelling of `j` with the text `t` and no number a double could not hold. */
  predicate Spelled(v: Spelling, t: Bytes, j: Value, convert: Converter) {
    IsSpelling(v) && TextOf(v) == t && TreeOf(v, convert) == j && Converts(v, convert) && Moderate(v)
  }

  /** What the writer prints for a value is a text of the grammar that stands for it. */
  lemma {:induction false} WrittenIsSpelled(j: Value, convert: Converter)
    requires Plain(j)
    ensures Spelled(SpellingOf(j), Writers.TextOf(j), j, convert)
    decreases j, 1
  {
    match j
    case Array(es) =>
      if es == [] { EmptyWritten(convert); } else { ElementsWritten(j, 0, convert); ArrayWritten(j, convert); }
    case Object(ms) =>
      if ms == [] { EmptyWritten(convert); } else { MembersWritten(j, 0, convert); ObjectWritten(j, convert); }
    case _ => ScalarWritten(j, convert);
  }

  lemma EmptyWritten(convert: Converter)
    ensures Spelled(EmptyArray([]), Writers.TextOf(Array([])), Array([]), convert)
    ensures Spelled(EmptyObject([]), Writers.TextOf(Object([])), Object([]), convert)
  {
    assert Writers.ElementsText(Array([]), 0) == [] && Writers.MembersText(Object([]), 0) == [];
  }

  lemma ScalarWritten(j: Value, convert: Converter)
    requires Plain(j) && !j.Array? && !j.Object?
    ensures Spelled(SpellingOf(j), Writers.TextOf(j), j, convert)
  {
    hide CharsOf, QuotedText, Writers.StringText, LiteralText, IsNumber, LiteralOf, IsInteger64, IntegerValue, IntText, Exponent, AreChars, CharsBytes;
    match j
    case Number(n) => NumberWritten(n);
    case String(s) => StringWritten(s);
    case Null => assert Ascii("null") == NULL_TEXT;
    case Bool(b) => assert Ascii("true") == TRUE_TEXT && Ascii("false") == FALSE_TEXT;
  }

  /** The elements from `k` on, behind those before. */
  predicate ElementsSpell(j: Value, k: nat, convert: Converter)
    requires j.Array? && Plain(j) && k < |j.es|
  {
    var e := ElementsOf(j, k);
    && AreElements(e) && ElementTrees(e, convert) == j.es[k..] && ElementsConvert(e, convert) && ElementsModerate(e)
    && Writers.ElementsText(j, k) + (if k == 0 then [] else [COMMA]) + ElementsText(e) ==
       Writers.ElementsText(j, |j.es|) + [CLOSE_BRACKET]
  }

  lemma {:induction false} ElementsWritten(j: Value, k: nat, convert: Converter)
    requires j.Array? && Plain(j) && k < |j.es|
    ensures ElementsSpell(j, k, convert)
    decreases j, 0, |j.es| - k
  {
    WrittenIsSpelled(j.es[k], convert);
    if k + 1 < |j.es| { ElementsWritten(j, k + 1, convert); }
    ElementJoins(j, k, convert);
  }

  lemma ElementJoins(j: Value, k: nat, convert: Converter)
    requires j.Array? && Plain(j) && k < |j.es| && Spelled(SpellingOf(j.es[k]), Writers.TextOf(j.es[k]), j.es[k], convert)
    requires k + 1 < |j.es| ==> ElementsSpell(j, k + 1, convert)
    ensures ElementsSpell(j, k, convert)
  {
    hide SpellingOf, Writers.TextOf, TextOf, TreeOf, Converts, Moderate, IsSpelling;
    var e, t := ElementsOf(j, k), Writers.TextOf(j.es[k]);
    var before := Writers.ElementsText(j, k) + (if k == 0 then [] else [COMMA]);
    assert Writers.ElementsText(j, k + 1) == before + t;
    assert [] + t + [] + ElementsRest(e) == t + ElementsRest(e);
    Regrouped(before, t, ElementsRest(e));
    if k + 1 < |j.es| {
      var more := ElementsOf(j, k + 1);
      assert e.more == Some(more) && ElementsRest(e) == [COMMA] + ElementsText(more);
      Regrouped(before + t, [COMMA], ElementsText(more));
      assert [j.es[k]] + j.es[k + 1..] == j.es[k..];
    } else {
      assert [j.es[k]] + [] == j.es[k..];
    }
  }

  lemma ArrayWritten(j: Value, convert: Converter)
    requires j.Array? && Plain(j) && j.es != [] && ElementsSpell(j, 0, convert)
    ensures Spelled(SpellingOf(j), Writers.TextOf(j), j, convert)
  {
    hide ElementsOf, ElementsText, ElementTrees, ElementsConvert, ElementsModerate, AreElements;
    assert j.es[0..] == j.es;
    var all := Writers.ElementsText(j, |j.es|);
    assert Writers.ElementsText(j, 0) == [];
    hide Writers.ElementsText;
    assert [] + [] + ElementsText(ElementsOf(j, 0)) == ElementsText(ElementsOf(j, 0));
    Regrouped([OPEN_BRACKET], all, [CLOSE_BRACKET]);
  }

  predicate MembersSpell(j: Value, k: nat, convert: Converter)
    requires j.Object? && Plain(j) && k < |j.ms|
  {
    var m := MembersOf(j, k);
    && AreMembers(m) && MemberTrees(m, convert) == j.ms[k..] && MembersConvert(m, convert) && MembersModerate(m)
    && Writers.MembersText(j, k) + (if k == 0 then [] else [COMMA]) + MembersText(m) ==
       Writers.MembersText(j, |j.ms|) + [CLOSE_BRACE]
  }

  lemma {:induction false} MembersWritten(j: Value, k: nat, convert: Converter)
    requires j.Object? && Plain(j) && k < |j.ms|
    ensures MembersSpell(j, k, convert)
    decreases j, 0, |j.ms| - k
  {
    WrittenIsSpelled(j.ms[k].value, convert);
    if k + 1 < |j.ms| { MembersWritten(j, k + 1, convert); }
    MemberJoins(j, k, convert);
  }

  lemma MemberJoins(j: Value, k: nat, convert: Converter)
    requires j.Object? && Plain(j) && k < |j.ms|
    requires Spelled(SpellingOf(j.ms[k].value), Writers.TextOf(j.ms[k].value), j.ms[k].value, convert)
    requires k + 1 < |j.ms| ==> MembersSpell(j, k + 1, convert)
    ensures MembersSpell(j, k, convert)
  {
    hide SpellingOf, Writers.TextOf, TextOf, TreeOf, Converts, Moderate, IsSpelling, CharsOf, AreChars, CharsBytes, QuotedText,
         Writers.StringText, MembersText, Writers.MembersText, IsWhite;
    NoWhite();
    StringWritten(j.ms[k].name);
    var m := MembersOf(j, k);
    var now := Writers.MembersText(j, k) + (if k == 0 then [] else [COMMA]);
    MemberText(m, now, Writers.StringText(j.ms[k].name), Writers.TextOf(j.ms[k].value));
    NextMember(j, k);
    if k + 1 < |j.ms| {
      assert MembersRest(m) == [COMMA] + MembersText(MembersOf(j, k + 1));
      Regrouped(Writers.MembersText(j, k + 1), [COMMA], MembersText(MembersOf(j, k + 1)));
      assert [j.ms[k]] + j.ms[k + 1..] == j.ms[k..];
    } else {
      assert [j.ms[k]] + [] == j.ms[k..];
    }
  }

  lemma NextMember(j: Value, k: nat)
    requires j.Object? && k < |j.ms|
    ensures Writers.MembersText(j, k + 1) ==
      Writers.MembersText(j, k) + (if k == 0 then [] else [COMMA]) + Writers.StringText(j.ms[k].name) + [COLON]
      + Writers.TextOf(j.ms[k].value)
  {
    hide Writers.StringText, Writers.TextOf;
  }

  lemma MemberText(m: Members, now: Bytes, name: Bytes, value: Bytes)
    requires m.before == m.beforeColon == m.afterColon == m.after == [] && QuotedText(m.name) == name && TextOf(m.value) == value
    ensures now + MembersText(m) == now + name + [COLON] + value + MembersRest(m)
  {
    hide QuotedText, TextOf, MembersRest;
    var rest := MembersRest(m);
    assert [] + name + [] + [0x3A] + [] + value + [] + rest == name + [COLON] + value + rest;
    assert now + (name + [COLON] + value + rest) == now + name + [COLON] + value + rest;
  }

  lemma ObjectWritten(j: Value, convert: Converter)
    requires j.Object? && Plain(j) && j.ms != [] && MembersSpell(j, 0, convert)
    ensures Spelled(SpellingOf(j), Writers.TextOf(j), j, convert)
  {
    hide MembersOf, MembersText, MemberTrees, MembersConvert, MembersModerate, AreMembers;
    assert j.ms[0..] == j.ms;
    var all := Writers.MembersText(j, |j.ms|);
    assert Writers.MembersText(j, 0) == [];
    hide Writers.MembersText;
    assert [] + [] + MembersText(MembersOf(j, 0)) == MembersText(MembersOf(j, 0));
    Regrouped([OPEN_BRACE], all, [CLOSE_BRACE]);
  }
}
