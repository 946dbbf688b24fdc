/** The texts a parser accepts are those of RFC 8259, with the trees they stand for. */
module JsonDocuments {
  import opened Common
  import opened Json
  import opened JsonTexts
  import opened NumberGrammar
  import opened Tokens
  import Grammar
  import RoundTrip

  /** Section 2: one value with white space around it. */
  datatype Document = Document(before: Bytes, value: Spelling, after: Bytes)

  predicate IsDocument(d: Document) {
    IsWhite(d.before) && IsSpelling(d.value) && IsWhite(d.after)
  }

  function DocumentText(d: Document): Bytes {
    d.before + TextOf(d.value) + d.after
  }

  /** A zero-terminated `s` is the text `t`. */
  predicate Shows(s: Bytes, t: Bytes) {
    t <= s && (|t| < |s| ==> s[|t|] == 0)
  }

  lemma DocumentSits(s: Bytes, d: Document)
    requires IsDocument(d) && Shows(s, DocumentText(d))
    ensures var p := |d.before|;
      var q := p + |TextOf(d.value)|;
      && SkipSpace(s, 0) == p < |s| && Peek(s, p) != 0 && Sits(s, p, TextOf(d.value)) && Follows(d.value, Peek(s, q))
      && q <= |s| && SkipSpace(s, q) == q + |d.after| && Peek(s, q + |d.after|) == 0
  {
    hide *;
    ShownSits(s, d);
    SitsBoth(s, 0, d.before + TextOf(d.value), d.after);
    SitsBoth(s, 0, d.before, TextOf(d.value));
    WhiteThenValue(s, 0, d.before, d.value);
    WhiteThenEnd(s, |d.before| + |TextOf(d.value)|, d.after, d.value);
  }

  lemma ShownSits(s: Bytes, d: Document)
    requires IsDocument(d) && Shows(s, DocumentText(d))
    ensures IsWhite(d.before) && IsSpelling(d.value) && IsWhite(d.after)
    ensures var t := d.before + TextOf(d.value) + d.after; Sits(s, 0, t) && |t| <= |s| && Peek(s, |t|) == 0
  {
    hide TextOf, IsSpelling, IsWhite;
    assert s[0..|DocumentText(d)|] == DocumentText(d);
  }

  lemma WhiteThenEnd(s: Bytes, q: nat, w: Bytes, v: Spelling)
    requires IsWhite(w) && Sits(s, q, w) && Peek(s, q + |w|) == 0
    ensures SkipSpace(s, q) == q + |w| && Follows(v, Peek(s, q))
  {
    SkipsWhite(s, q, w);
    if w != [] {
      SitsAt(s, q, w, 0);
      SpaceIsWhite(w[0]);
      assert IsWhite([w[0]]);
      DelimiterFollows(v, w[0]);
    }
    hide SkipSpace;
  }

  lemma ParsesAs(s: Bytes, p: nat, q: nat, convert: Converter)
    requires SkipSpace(s, 0) == p && Peek(s, p) != 0 && p <= |s|
    ensures var value, r := Grammar.ValueAt(s, p, convert), Grammar.Parse(s, convert);
      && (value.Failed? ==> r == value)
      && (value.Done? && Peek(s, SkipSpace(s, value.pos)) == 0 ==> r == Done(value.events, SkipSpace(s, value.pos)))
      && (r.Done? ==> value.Done? && r.events == value.events && r.pos == SkipSpace(s, value.pos) && Peek(s, r.pos) == 0)
  {
    hide Grammar.ValueAt, SkipSpace;
  }

  /** Every text of the grammar is accepted as the tree it stands for, or refused because a
      number of it has no conversion or an exponent above 308. */
  lemma DocumentReads(s: Bytes, d: Document, convert: Converter)
    requires IsDocument(d) && Shows(s, DocumentText(d))
    ensures var r := Grammar.Parse(s, convert);
      if r.Done? then Converts(d.value, convert) && RoundTrip.Denotes(s, convert, TreeOf(d.value, convert))
      else r.code == NumberTooBig && !(Converts(d.value, convert) && Moderate(d.value))
  {
    hide *;
    var p := |d.before|;
    var q := p + |TextOf(d.value)|;
    DocumentIs(d);
    DocumentSits(s, d);
    ValueReads(s, p, d.value, convert);
    ParsesAs(s, p, q, convert);
    var value := Grammar.ValueAt(s, p, convert);
    if value.Done? {
      DoneIs(value, q, Events(TreeOf(d.value, convert)), Converts(d.value, convert), Moderate(d.value));
      RoundTrip.ParsedDenotes(s, convert, TreeOf(d.value, convert));
    } else {
      FailedIs(value, q, Events(TreeOf(d.value, convert)), Converts(d.value, convert), Moderate(d.value));
    }
  }

  lemma DocumentIs(d: Document)
    requires IsDocument(d)
    ensures IsSpelling(d.value)
  {
  }

  lemma FailedIs(r: Outcome, end: nat, es: seq<Event>, converts: bool, moderate: bool)
    requires r.Failed? && Reads(r, end, es, converts, moderate)
    ensures r.code == NumberTooBig && !(converts && moderate)
  {
  }

  /** Every accepted text is one of the grammar, and stands for the tree it is read as. */
  lemma AcceptedIsDocument(s: Bytes, convert: Converter) returns (d: Document)
    requires Grammar.Parse(s, convert).Done?
    ensures IsDocument(d) && Shows(s, DocumentText(d)) && Converts(d.value, convert)
    ensures RoundTrip.Denotes(s, convert, TreeOf(d.value, convert))
  {
    hide *;
    var p := SkipSpace(s, 0);
    NotEmpty(s, convert);
    SkippedIsWhite(s, 0);
    var v := ValueSpelledAt(s, p, convert);
    var q := Grammar.ValueAt(s, p, convert).pos;
    ParsesAs(s, p, q, convert);
    SkippedIsWhite(s, q);
    var end := SkipSpace(s, q);
    d := Document(s[0..p], v, s[q..end]);
    assert s[0..p] + s[p..q] + s[q..end] == s[..end];
    DocumentShown(s, d, end);
    DocumentReads(s, d, convert);
  }

  lemma NotEmpty(s: Bytes, convert: Converter)
    requires Grammar.Parse(s, convert).Done?
    ensures Peek(s, SkipSpace(s, 0)) != 0
  {
    hide SkipSpace, Grammar.ValueAt;
  }

  lemma ValueSpelledAt(s: Bytes, p: nat, convert: Converter) returns (v: Spelling)
    requires p == SkipSpace(s, 0) && p <= |s| && Peek(s, p) != 0 && Grammar.Parse(s, convert).Done?
    ensures var r := Grammar.ValueAt(s, p, convert);
      r.Done? && p < r.pos <= |s| && IsSpelling(v) && TextOf(v) == s[p..r.pos]
  {
    ParsesAs(s, p, 0, convert);
    hide *;
    v := ValueSpelled(s, p, convert);
  }

  lemma DocumentShown(s: Bytes, d: Document, end: nat)
    requires IsWhite(d.before) && IsSpelling(d.value) && IsWhite(d.after) && end <= |s| && Peek(s, end) == 0
    requires d.before + TextOf(d.value) + d.after == s[..end]
    ensures IsDocument(d) && Shows(s, DocumentText(d))
  {
    hide IsWhite, IsSpelling, TextOf;
  }

  /** What a text denotes is what it spells. */
  lemma DenotesIsSpelled(s: Bytes, convert: Converter, v: Value)
    ensures RoundTrip.Denotes(s, convert, v) ==>
      exists d :: IsDocument(d) && Shows(s, DocumentText(d)) && Converts(d.value, convert) && TreeOf(d.value, convert) == v
    ensures (exists d :: IsDocument(d) && Shows(s, DocumentText(d)) && Converts(d.value, convert) && Moderate(d.value)
                         && TreeOf(d.value, convert) == v) ==> RoundTrip.Denotes(s, convert, v)
  {
    if RoundTrip.Denotes(s, convert, v) {
      assert Grammar.Parse(s, convert).Done?;
      hide *;
      var d := AcceptedIsDocument(s, convert);
      var only := RoundTrip.DenotesOne(s, convert);
    }
    if d :| IsDocument(d) && Shows(s, DocumentText(d)) && Converts(d.value, convert) && Moderate(d.value) && TreeOf(d.value, convert) == v {
      hide *;
      DocumentReads(s, d, convert);
    }
  }

  /** For instance a brace, a line feed and a brace. */
  lemma LineFeedBetween(convert: Converter)
    ensures RoundTrip.Denotes(Ascii("{\n}"), convert, Object([]))
  {
    var d := Document([], EmptyObject([0x0A]), []);
    var s := Ascii("{\n}");
    assert DocumentText(d) == s;
    hide RoundTrip.Denotes, Grammar.Parse;
    DocumentReads(s, d, convert);
  }

  // ----- what a text is refused for, and where -----

  predicate RefusedAs(s: Bytes, code: ParseErrorCode, offset: nat, convert: Converter) {
    var r := Grammar.Parse(s, convert);
    r.Failed? && r.code == code && r.offset == offset
  }

  lemma RootsRefused(convert: Converter)
    ensures RefusedAs([], DocumentEmpty, 0, convert)
    ensures RefusedAs([0x22, 0x22, 0x22], DocumentRootNotSingular, 2, convert) // """
    ensures RefusedAs([0x78], ValueInvalid, 0, convert) // x
  {
  }

  lemma ObjectsRefused(convert: Converter)
    ensures RefusedAs([0x7B], ObjectMissName, 1, convert) // {
    ensures RefusedAs([0x7B, 0x22, 0x22], ObjectMissColon, 3, convert) // {""
  {
  }

  lemma MembersRefused(convert: Converter)
    ensures RefusedAs([0x7B, 0x22, 0x22, 0x3A, 0x22, 0x22], ObjectMissCommaOrCurlyBracket, 6, convert) // {"":""
  {
  }

  lemma ArraysRefused(convert: Converter)
    ensures RefusedAs([0x5B], ValueInvalid, 1, convert) // [
    ensures RefusedAs([0x5B, 0x22, 0x22], ArrayMissCommaOrSquareBracket, 3, convert) // [""
  {
  }

  lemma StringsRefused(convert: Converter)
    ensures RefusedAs([0x22], StringMissQuotationMark, 1, convert) // "
    ensures RefusedAs([0x22, 0x0A], StringInvalidEncoding, 1, convert) // " and a line feed
    ensures RefusedAs([0x22, 0x5C, 0x78], StringEscapeInvalid, 1, convert) // "\x
  {
  }

  lemma EscapesRefused(convert: Converter)
    ensures RefusedAs([0x22, 0x5C, 0x75, 0x22], StringUnicodeEscapeInvalidHex, 1, convert) // "\u"
    ensures RefusedAs([0x22, 0x5C, 0x75, 0x64, 0x38, 0x30, 0x30, 0x22], StringUnicodeSurrogateInvalid, 1, convert) // "\ud800"
  {
  }

  lemma NumbersRefused(convert: Converter)
    ensures RefusedAs([0x31, 0x2E], NumberMissFraction, 2, convert) // 1.
    ensures RefusedAs([0x31, 0x65], NumberMissExponent, 2, convert) // 1e
  {
  }
}
