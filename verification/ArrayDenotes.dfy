/** What the JSON text of deserialised strings denotes. */
module ArrayDenotes {
  import opened Common
  import opened ArrayParams
  import opened Json
  import opened Tokens
  import Documents
  import Grammar
  import JsonTexts
  import RoundTrip
  import Utf8
  import Writers
  import WrittenTexts

  /** A byte that stands for itself in a string literal. */
  predicate PlainByte(c: Byte) {
    c != QUOTE && c != BACKSLASH && c >= 0x20
  }

  predicate PlainText(d: Bytes) {
    forall i | 0 <= i < |d| :: PlainByte(d[i])
  }

  function Quoted(d: Bytes): Bytes {
    [QUOTE] + d + [QUOTE]
  }

  /** Decoded strings as the deserialiser puts them into the array. */
  function QuotedAll(ds: seq<Bytes>): (outs: seq<Bytes>)
    ensures |outs| == |ds|
  {
    seq(|ds|, i requires 0 <= i < |ds| => Quoted(ds[i]))
  }

  function StringEvents(ds: seq<Bytes>): (es: seq<Event>)
    ensures |es| == |ds|
  {
    seq(|ds|, i requires 0 <= i < |ds| => StringEv(ds[i]))
  }

  /** The array of the strings. */
  function Strings(ds: seq<Bytes>): (v: Value)
    ensures v.Array? && |v.es| == |ds|
  {
    Array(seq(|ds|, i requires 0 <= i < |ds| => String(ds[i])))
  }

  // ----- one literal -----

  lemma {:induction false} OnlyAppends(s: Bytes, i: nat, acc: Bytes)
    requires Tokens.StringFrom(s, i, acc).StringDone?
    ensures acc <= Tokens.StringFrom(s, i, acc).value
    decreases |s| - i
  {
    hide EscapeOf, UnicodeEscape, Utf8.Encoded;
    var c := Peek(s, i);
    if c == BACKSLASH {
      var e := Peek(s, i + 1);
      var (cp, code, next) := UnicodeEscape(s, i);
      if EscapeOf(e).Some? {
        OnlyAppends(s, i + 2, acc + [EscapeOf(e).value]);
      } else {
        OnlyAppends(s, next, acc + Utf8.Encoded(cp.value));
      }
    } else if c != QUOTE {
      OnlyAppends(s, i + 1, acc + [c]);
    }
  }

  /** An escape of a code point is longer than what it encodes, and contains no quote. */
  lemma EscapeCovers(s: Bytes, i: nat)
    requires Peek(s, i) == BACKSLASH && Peek(s, i + 1) == LOWER_U && UnicodeEscape(s, i).0.Some?
    ensures var (cp, code, next) := UnicodeEscape(s, i);
      |Utf8.Encoded(cp.value)| < next - i && next <= |s| && forall k | i <= k < next :: s[k] != QUOTE
  {
    hide Hex4, UnicodeEscape, Utf8.Encoded;
    EscapeShape(s, i);
    HexHasNoQuote(s, i + 2);
    HexHasNoQuote(s, i + 8);
    EncodedLength(UnicodeEscape(s, i).0.value);
  }

  /** Four digits, or four, another `\u` and four more. */
  lemma EscapeShape(s: Bytes, i: nat)
    requires UnicodeEscape(s, i).0.Some?
    ensures Hex4(s, i + 2).Some?
    ensures var next := UnicodeEscape(s, i).2;
      || next == i + 6
      || (next == i + 12 && Peek(s, i + 6) == BACKSLASH && Peek(s, i + 7) == LOWER_U && Hex4(s, i + 8).Some?)
  {
    hide Hex4;
  }

  lemma EncodedLength(cp: nat)
    requires cp <= 0x10FFFF
    ensures |Utf8.Encoded(cp)| <= 4
  {
  }

  lemma HexHasNoQuote(s: Bytes, p: nat)
    ensures Hex4(s, p).Some? ==> p + 4 <= |s| && forall k | p <= k < p + 4 :: s[k] != QUOTE
  {
    if Hex4(s, p).Some? {
      assert HexValue(QUOTE).None?;
      hide HexValue;
    }
  }

  /** `d` and a quote stand at `p`, and reading a literal there has come to `i` with the first
      `n` bytes of `d`: nothing read so far was a quote, and no escape unless it is ahead. */
  predicate Scanned(s: Bytes, p: nat, d: Bytes, i: nat, n: nat) {
    && Sits(s, p, d) && p + |d| < |s| && s[p + |d|] == QUOTE && n <= |d| && p + n <= i <= |s|
    && (forall k | p <= k < i :: s[k] != QUOTE) && (i == p + n ==> PlainText(d[..n]))
  }

  lemma EscapeScanned(s: Bytes, p: nat, d: Bytes, i: nat, n: nat)
    requires Scanned(s, p, d, i, n) && Peek(s, i) == BACKSLASH && EscapeOf(Peek(s, i + 1)).Some?
    requires d[..n] + [EscapeOf(Peek(s, i + 1)).value] <= d
    ensures Scanned(s, p, d, i + 2, n + 1) && d[..n + 1] == d[..n] + [EscapeOf(Peek(s, i + 1)).value]
  {
    NextByte(d, n, EscapeOf(Peek(s, i + 1)).value);
    SitsAt(s, p, d, n);
    EscapesItself(Peek(s, i + 1));
    hide EscapeOf, PlainText, Sits;
  }

  lemma CodePointScanned(s: Bytes, p: nat, d: Bytes, i: nat, n: nat)
    requires Scanned(s, p, d, i, n) && Peek(s, i) == BACKSLASH && Peek(s, i + 1) == LOWER_U && UnicodeEscape(s, i).0.Some?
    requires d[..n] + Utf8.Encoded(UnicodeEscape(s, i).0.value) <= d
    ensures var (cp, code, next) := UnicodeEscape(s, i); var more := Utf8.Encoded(cp.value);
      n + |more| <= |d| && Scanned(s, p, d, next, n + |more|) && d[..n + |more|] == d[..n] + more
  {
    EscapeCovers(s, i);
    hide UnicodeEscape, PlainText, Sits, Utf8.Encoded;
  }

  lemma ByteScanned(s: Bytes, p: nat, d: Bytes, i: nat, n: nat)
    requires Scanned(s, p, d, i, n) && PlainByte(Peek(s, i)) && d[..n] + [Peek(s, i)] <= d
    ensures Scanned(s, p, d, i + 1, n + 1) && d[..n + 1] == d[..n] + [Peek(s, i)]
  {
    NextByte(d, n, Peek(s, i));
    hide Sits;
  }

  lemma QuoteScanned(s: Bytes, p: nat, d: Bytes, i: nat, n: nat)
    requires Scanned(s, p, d, i, n) && Peek(s, i) == QUOTE && d[..n] == d
    ensures PlainText(d) && i == p + |d|
  {
    hide Sits, PlainText;
  }

  /** A literal read as the text that stands between its quotes ends behind that text, which
      holds no escape. */
  lemma {:induction false} ReadsItself(s: Bytes, p: nat, d: Bytes, i: nat, n: nat)
    requires n <= |d| && Scanned(s, p, d, i, n)
    requires Tokens.StringFrom(s, i, d[..n]).StringDone? && Tokens.StringFrom(s, i, d[..n]).value == d
    ensures PlainText(d) && Tokens.StringFrom(s, i, d[..n]).pos == p + |d| + 1
    decreases |s| - i
  {
    hide PlainText, Scanned, EscapeOf, UnicodeEscape, Utf8.Encoded;
    var acc, c := d[..n], Peek(s, i);
    if c == BACKSLASH {
      var e := Peek(s, i + 1);
      var (cp, code, next) := UnicodeEscape(s, i);
      if EscapeOf(e).Some? {
        OnlyAppends(s, i + 2, acc + [EscapeOf(e).value]);
        EscapeScanned(s, p, d, i, n);
        ReadsItself(s, p, d, i + 2, n + 1);
      } else {
        OnlyAppends(s, next, acc + Utf8.Encoded(cp.value));
        CodePointScanned(s, p, d, i, n);
        ReadsItself(s, p, d, next, n + |Utf8.Encoded(cp.value)|);
      }
    } else if c == QUOTE {
      QuoteScanned(s, p, d, i, n);
    } else {
      OnlyAppends(s, i + 1, acc + [c]);
      ByteScanned(s, p, d, i, n);
      ReadsItself(s, p, d, i + 1, n + 1);
    }
  }

  lemma NextByte(d: Bytes, n: nat, b: Byte)
    requires n <= |d| && d[..n] + [b] <= d
    ensures n < |d| && d[n] == b && d[..n + 1] == d[..n] + [b]
  {
    assert d[n] == (d[..n] + [b])[n];
  }

  lemma EscapesItself(e: Byte)
    requires EscapeOf(e).Some?
    ensures e != 0 && (e == QUOTE <==> EscapeOf(e).value == QUOTE)
  {
  }

  lemma {:induction false} PlainReads(s: Bytes, p: nat, d: Bytes, n: nat)
    requires Sits(s, p, d) && p + |d| < |s| && s[p + |d|] == QUOTE && n <= |d| && PlainText(d)
    ensures Tokens.StringFrom(s, p + n, d[..n]) == StringDone(d, p + |d| + 1)
    decreases |d| - n
  {
    if n == |d| {
      assert d[..n] == d;
    } else {
      SitsAt(s, p, d, n);
      assert PlainByte(d[n]) && d[..n + 1] == d[..n] + [d[n]];
      PlainReads(s, p, d, n + 1);
    }
  }

  /** A string between quotes is read as itself if and only if each of its bytes is plain. */
  lemma LiteralIsString(s: Bytes, p: nat, d: Bytes, convert: Converter)
    requires Sits(s, p, Quoted(d))
    ensures var r := Grammar.ValueAt(s, p, convert);
      && (r.Done? ==> exists v :: r.events == [StringEv(v)])
      && ((r.Done? && r.events == [StringEv(d)]) <==> PlainText(d))
      && (PlainText(d) ==> r == Done([StringEv(d)], p + |d| + 2))
  {
    QuotesSit(s, p, d);
    assert d[..0] == [];
    if PlainText(d) {
      PlainReads(s, p + 1, d, 0);
    } else if Tokens.StringFrom(s, p + 1, []).StringDone? && Tokens.StringFrom(s, p + 1, []).value == d {
      ReadsItself(s, p + 1, d, p + 1, 0);
    }
    QuoteIsString(s, p, convert);
    hide Grammar.ValueAt, Tokens.StringFrom;
  }

  lemma QuotesSit(s: Bytes, p: nat, d: Bytes)
    requires Sits(s, p, Quoted(d))
    ensures p + 1 + |d| < |s| && s[p] == QUOTE && Sits(s, p + 1, d) && s[p + 1 + |d|] == QUOTE
  {
    SitsAt(s, p, Quoted(d), 0);
    SitsAt(s, p, Quoted(d), 1 + |d|);
    SitsBoth(s, p, [QUOTE] + d, [QUOTE]);
    SitsBoth(s, p, [QUOTE], d);
  }

  lemma QuoteIsString(s: Bytes, p: nat, convert: Converter)
    requires p < |s| && s[p] == QUOTE
    ensures Grammar.ValueAt(s, p, convert) == StringAt(s, p, false)
  {
    hide StringAt;
  }

  // ----- the elements -----

  /** The rest of the array's text from string `k` on. */
  function Rest(ds: seq<Bytes>, k: nat): Bytes
    requires k < |ds|
    decreases |ds| - k
  {
    Quoted(ds[k]) + if k + 1 == |ds| then [CLOSE_BRACKET] else [COMMA] + Rest(ds, k + 1)
  }

  predicate PlainFrom(ds: seq<Bytes>, k: nat) {
    forall i | k <= i < |ds| :: PlainText(ds[i])
  }

  function EventsFrom(ds: seq<Bytes>, k: nat): seq<Event>
    requires k <= |ds|
  {
    StringEvents(ds)[k..] + [EndArrayEv(|ds|)]
  }

  lemma RestParts(s: Bytes, p: nat, ds: seq<Bytes>, k: nat)
    requires k < |ds| && Sits(s, p, Rest(ds, k)) && p + |Rest(ds, k)| == |s|
    ensures var e := p + |ds[k]| + 2;
      && Sits(s, p, Quoted(ds[k])) && e < |s| && SkipSpace(s, e) == e
      && (if k + 1 == |ds| then e + 1 == |s| && s[e] == CLOSE_BRACKET
          else s[e] == COMMA && SkipSpace(s, e + 1) == e + 1 && Sits(s, e + 1, Rest(ds, k + 1))
               && e + 1 + |Rest(ds, k + 1)| == |s|)
  {
    var e := p + |ds[k]| + 2;
    if k + 1 == |ds| {
      SitsBoth(s, p, Quoted(ds[k]), [CLOSE_BRACKET]);
      assert s[e..e + 1][0] == CLOSE_BRACKET;
    } else {
      assert Quoted(ds[k + 1])[0] == QUOTE && |Quoted(ds[k])| == |ds[k]| + 2;
      assert Rest(ds, k + 1)[0] == QUOTE;
      hide Rest, Quoted;
      assert Sits(s, p, Quoted(ds[k]) + ([COMMA] + Rest(ds, k + 1))) by { RestStep(ds, k); }
      SitsBoth(s, p, Quoted(ds[k]), [COMMA] + Rest(ds, k + 1));
      SitsBoth(s, e, [COMMA], Rest(ds, k + 1));
      SitsAt(s, e, [COMMA], 0);
      SitsAt(s, e + 1, Rest(ds, k + 1), 0);
    }
  }

  lemma RestStep(ds: seq<Bytes>, k: nat)
    requires k + 1 < |ds|
    ensures Rest(ds, k) == Quoted(ds[k]) + ([COMMA] + Rest(ds, k + 1))
  {
  }

  /** Whether reading from the string `k` on sends the strings from `k` on. */
  predicate Reads(r: Outcome, ds: seq<Bytes>, k: nat)
    requires k <= |ds|
  {
    r.Done? && Documents.CanonicalAll(r.events) == EventsFrom(ds, k)
  }

  lemma PlainStep(ds: seq<Bytes>, k: nat)
    requires k < |ds|
    ensures PlainFrom(ds, k) <==> PlainText(ds[k]) && PlainFrom(ds, k + 1)
    ensures PlainFrom(ds, |ds|)
  {
    hide PlainText;
  }

  lemma StartsWith(s: Bytes, p: nat, k: nat, convert: Converter)
    requires p <= |s|
    ensures var r, value := Grammar.ElementsFrom(s, p, k, convert), Grammar.ValueAt(s, p, convert);
      r.Done? ==> value.Done? && value.events <= r.events
  {
    hide Grammar.ValueAt, SkipSpace;
  }

  lemma GoesOn(s: Bytes, p: nat, k: nat, d: Bytes, e: nat, convert: Converter)
    requires p <= |s| && e < |s| && s[e] == COMMA && SkipSpace(s, e) == e && SkipSpace(s, e + 1) == e + 1
    requires Grammar.ValueAt(s, p, convert) == Done([StringEv(d)], e)
    ensures Grammar.ElementsFrom(s, p, k, convert) ==
            Grammar.Prefixed([StringEv(d)], Grammar.ElementsFrom(s, e + 1, k + 1, convert))
  {
    hide Grammar.ValueAt, SkipSpace;
  }

  lemma EndsHere(s: Bytes, p: nat, k: nat, d: Bytes, e: nat, convert: Converter)
    requires p <= |s| && e < |s| && s[e] == CLOSE_BRACKET && SkipSpace(s, e) == e
    requires Grammar.ValueAt(s, p, convert) == Done([StringEv(d)], e)
    ensures Grammar.ElementsFrom(s, p, k, convert) == Done([StringEv(d), EndArrayEv(k + 1)], e + 1)
  {
    hide Grammar.ValueAt, SkipSpace;
  }

  lemma {:induction false} CanonicalAt(es: seq<Event>, i: nat)
    requires i < |es|
    ensures Documents.CanonicalAll(es)[i] == Documents.Canonical(es[i])
  {
    if i < |es| - 1 { CanonicalAt(es[..|es| - 1], i); }
  }

  lemma StringCanonical(d: Bytes)
    ensures Documents.Canonical(StringEv(d)) == StringEv(d) && Documents.Canonical(StartArrayEv) == StartArrayEv
    ensures forall n :: Documents.Canonical(EndArrayEv(n)) == EndArrayEv(n)
  {
  }

  lemma ReadsNext(rest: Outcome, ds: seq<Bytes>, k: nat)
    requires k + 1 < |ds|
    ensures Reads(Grammar.Prefixed([StringEv(ds[k])], rest), ds, k) <==> Reads(rest, ds, k + 1)
  {
    var e := StringEv(ds[k]);
    Documents.CanonicalAppend([e], rest.events);
    Documents.CanonicalOne(e);
    StringCanonical(ds[k]);
    EventsStep(ds, k);
    hide Documents.CanonicalAll, Documents.Canonical, EventsFrom;
    var now, next := Documents.CanonicalAll(rest.events), EventsFrom(ds, k + 1);
    assert ([e] + now)[1..] == now && ([e] + next)[1..] == next;
  }

  lemma EventsStep(ds: seq<Bytes>, k: nat)
    requires k < |ds|
    ensures EventsFrom(ds, k) == [StringEv(ds[k])] + EventsFrom(ds, k + 1)
    ensures EventsFrom(ds, |ds|) == [EndArrayEv(|ds|)]
  {
  }

  lemma ReadsLast(ds: seq<Bytes>, k: nat, end: nat)
    requires k + 1 == |ds|
    ensures Reads(Done([StringEv(ds[k]), EndArrayEv(k + 1)], end), ds, k)
  {
    EventsStep(ds, k);
    StringCanonical(ds[k]);
    CanonicalAt([StringEv(ds[k]), EndArrayEv(k + 1)], 0);
    CanonicalAt([StringEv(ds[k]), EndArrayEv(k + 1)], 1);
    hide Documents.CanonicalAll, Documents.Canonical, EventsFrom;
  }

  lemma FirstRead(r: Outcome, first: seq<Event>, ds: seq<Bytes>, k: nat, v: Bytes)
    requires k < |ds| && Reads(r, ds, k) && first == [StringEv(v)] && first <= r.events
    ensures v == ds[k]
  {
    EventsStep(ds, k);
    assert r.events[0] == first[0];
    CanonicalAt(r.events, 0);
    StringCanonical(v);
    hide Documents.CanonicalAll, Documents.Canonical, EventsFrom;
  }

  lemma {:induction false} ElementsRead(s: Bytes, p: nat, ds: seq<Bytes>, k: nat, convert: Converter)
    requires k < |ds| && Sits(s, p, Rest(ds, k)) && p + |Rest(ds, k)| == |s|
    ensures var r := Grammar.ElementsFrom(s, p, k, convert);
      (Reads(r, ds, k) <==> PlainFrom(ds, k)) && (PlainFrom(ds, k) ==> r.Done? && r.pos == |s|)
    decreases |ds| - k
  {
    hide *;
    var e, r := p + |ds[k]| + 2, Grammar.ElementsFrom(s, p, k, convert);
    RestParts(s, p, ds, k);
    LiteralIsString(s, p, ds[k], convert);
    PlainStep(ds, k);
    StartsWith(s, p, k, convert);
    if PlainText(ds[k]) {
      if k + 1 < |ds| {
        ElementsRead(s, e + 1, ds, k + 1, convert);
        GoesOn(s, p, k, ds[k], e, convert);
        ReadsNext(Grammar.ElementsFrom(s, e + 1, k + 1, convert), ds, k);
        PrefixedEnds(ds[k], Grammar.ElementsFrom(s, e + 1, k + 1, convert));
      } else {
        EndsHere(s, p, k, ds[k], e, convert);
        ReadsLast(ds, k, |s|);
      }
    } else if Reads(r, ds, k) {
      ReadIsDone(r, ds, k);
      var value := Grammar.ValueAt(s, p, convert);
      var v :| value.events == [StringEv(v)];
      FirstRead(r, value.events, ds, k, v);
    }
  }

  lemma ReadIsDone(r: Outcome, ds: seq<Bytes>, k: nat)
    requires k <= |ds| && Reads(r, ds, k)
    ensures r.Done?
  {
  }

  lemma PrefixedEnds(d: Bytes, rest: Outcome)
    ensures var r := Grammar.Prefixed([StringEv(d)], rest); r.Done? == rest.Done? && (rest.Done? ==> r.pos == rest.pos)
  {
  }

  // ----- the array -----

  lemma {:induction false} ListedRest(ds: seq<Bytes>, k: nat)
    requires k < |ds|
    ensures Listed(QuotedAll(ds), k) != []
    ensures var t := Listed(QuotedAll(ds), k); t[..|t| - 1] + [CLOSE_BRACKET] == Rest(ds, k)
    decreases |ds| - k
  {
    hide Quoted;
    var outs := QuotedAll(ds);
    if k + 1 < |ds| {
      ListedRest(ds, k + 1);
      var t := Listed(outs, k + 1);
      hide Listed, Rest;
      assert Listed(outs, k) == outs[k] + [COMMA] + t by { ListedOnce(outs, k); }
      RestStep(ds, k);
      assert (outs[k] + [COMMA] + t)[..|outs[k]| + |t|] + [CLOSE_BRACKET] == outs[k] + ([COMMA] + (t[..|t| - 1] + [CLOSE_BRACKET]));
    } else {
      assert Listed(outs, k) == outs[k] + [COMMA] + [];
    }
  }

  lemma ListedOnce(outs: seq<Bytes>, k: nat)
    requires k < |outs|
    ensures Listed(outs, k) == outs[k] + [COMMA] + Listed(outs, k + 1)
  {
  }

  lemma TextIsRest(ds: seq<Bytes>)
    requires ds != []
    ensures ArrayText(QuotedAll(ds)) == [OPEN_BRACKET] + Rest(ds, 0)
  {
    ListedRest(ds, 0);
    hide Rest, Listed, QuotedAll;
  }

  lemma {:induction false} ElementsSent(ds: seq<Bytes>, k: nat)
    requires k <= |ds|
    ensures ElementEvents(Strings(ds), k) == StringEvents(ds)[..k]
  {
    if k > 0 {
      ElementsSent(ds, k - 1);
      assert Events(Strings(ds).es[k - 1]) == [StringEv(ds[k - 1])];
      assert StringEvents(ds)[..k] == StringEvents(ds)[..k - 1] + [StringEv(ds[k - 1])];
    }
  }

  lemma StringsSend(ds: seq<Bytes>)
    ensures Events(Strings(ds)) == [StartArrayEv] + EventsFrom(ds, 0)
  {
    ElementsSent(ds, |ds|);
    assert StringEvents(ds)[..|ds|] == StringEvents(ds) == StringEvents(ds)[0..];
    hide ElementEvents, StringEvents;
  }

  lemma ArrayOpens(s: Bytes, convert: Converter)
    requires |s| > 1 && s[0] == OPEN_BRACKET && s[1] == QUOTE
    ensures Grammar.ValueAt(s, 0, convert) == Grammar.Prefixed([StartArrayEv], Grammar.ElementsFrom(s, 1, 0, convert))
  {
    JsonTexts.NoSpace(s, 1);
    assert Grammar.ValueAt(s, 0, convert) == Grammar.ArrayAt(s, 0, convert);
    hide SkipSpace, Grammar.ElementsFrom, Grammar.ValueAt;
  }

  lemma OpensArray(s: Bytes, convert: Converter)
    requires |s| > 1 && s[0] == OPEN_BRACKET && s[1] == QUOTE
    ensures var r, elements := Grammar.Parse(s, convert), Grammar.ElementsFrom(s, 1, 0, convert);
      && (r.Done? ==> elements.Done? && r.events == [StartArrayEv] + elements.events)
      && (elements.Done? && elements.pos == |s| ==> r.Done?)
  {
    JsonTexts.NoSpace(s, 0);
    JsonTexts.NoSpace(s, |s|);
    ArrayOpens(s, convert);
    hide SkipSpace, Grammar.ElementsFrom, Grammar.ValueAt;
  }

  lemma CanonicalOpens(es: seq<Event>)
    ensures Documents.CanonicalAll([StartArrayEv] + es) == [StartArrayEv] + Documents.CanonicalAll(es)
  {
    Documents.CanonicalAppend([StartArrayEv], es);
    Documents.CanonicalOne(StartArrayEv);
    StringCanonical([]);
    hide Documents.CanonicalAll, Documents.Canonical;
  }

  lemma RestSits(ds: seq<Bytes>)
    requires ds != []
    ensures var s := [OPEN_BRACKET] + Rest(ds, 0);
      |s| > 1 && s[1] == QUOTE && Sits(s, 1, Rest(ds, 0)) && 1 + |Rest(ds, 0)| == |s|
  {
    assert Rest(ds, 0)[0] == QUOTE;
    hide Rest;
  }

  /** The text that stands for decoded strings denotes their array if and only if no string
      holds a quote, a backslash or a control byte: the deserialiser escapes none of them. */
  lemma TextDenotesStrings(ds: seq<Bytes>, convert: Converter)
    requires ds != []
    ensures RoundTrip.Denotes(ArrayText(QuotedAll(ds)), convert, Strings(ds)) <==> forall i | 0 <= i < |ds| :: PlainText(ds[i])
  {
    var s := [OPEN_BRACKET] + Rest(ds, 0);
    var elements := Grammar.ElementsFrom(s, 1, 0, convert);
    hide Rest, Events, Strings, ArrayText, QuotedAll, PlainText, Grammar.ElementsFrom, Grammar.Parse, Documents.CanonicalAll, EventsFrom;
    TextIsRest(ds);
    RestSits(ds);
    ElementsRead(s, 1, ds, 0, convert);
    OpensArray(s, convert);
    CanonicalOpens(elements.events);
    StringsSend(ds);
    var now, es := Documents.CanonicalAll(elements.events), EventsFrom(ds, 0);
    assert ([StartArrayEv] + now)[1..] == now && ([StartArrayEv] + es)[1..] == es;
  }

  /** The separator between two strings, within one. */
  const BETWEEN: Bytes := [QUOTE, COMMA, QUOTE]

  /** One string that spells the end of a literal and the beginning of another is not told
      from two. */
  lemma OneTextForTwo(a: Bytes, b: Bytes)
    ensures ArrayText(QuotedAll([a + BETWEEN + b])) == ArrayText(QuotedAll([a, b]))
  {
    TextIsRest([a + BETWEEN + b]);
    TextIsRest([a, b]);
    hide ArrayText, QuotedAll;
    assert Rest([a, b], 1) == Quoted(b) + [CLOSE_BRACKET];
    assert Rest([a, b], 0) == Quoted(a) + ([COMMA] + (Quoted(b) + [CLOSE_BRACKET]));
    assert Rest([a + BETWEEN + b], 0) == Quoted(a + BETWEEN + b) + [CLOSE_BRACKET];
    hide Rest;
    assert Quoted(a + BETWEEN + b) + [CLOSE_BRACKET] == Quoted(a) + ([COMMA] + (Quoted(b) + [CLOSE_BRACKET]));
  }

  /** For instance the one item `a","b`, whose text denotes an array of two. */
  lemma OneReadAsTwo(convert: Converter)
    ensures var a, b: Bytes := ['a' as int], ['b' as int];
      RoundTrip.Denotes(ArrayText(QuotedAll([a + BETWEEN + b])), convert, Strings([a, b]))
  {
    var a, b: Bytes := ['a' as int], ['b' as int];
    OneTextForTwo(a, b);
    TextDenotesStrings([a, b], convert);
    assert PlainText(a) && PlainText(b);
    hide RoundTrip.Denotes, ArrayText, QuotedAll, Strings;
  }

  // ----- strings as they are spelled -----

  lemma SpelledIsItem(g: Settings, t: Bytes, d: Bytes)
    requires g.items.StringItems? && Spells(t, d) && g.separator !in t
    ensures IsItem(g, t, Quoted(d))
  {
    DecodedIsSpelled(t, d);
    hide Decoded, Spells;
  }

  /** In every style, a list of encoded strings without the raw separator is read as the
      strings they spell. */
  lemma SpelledStringsDeserialize(style: ParamStyle, explode: bool, name: Bytes, ts: seq<Bytes>, ds: seq<Bytes>)
    requires |ts| == |ds| > 0 && ts[|ts| - 1] != [] && forall i | 0 <= i < |ts| :: Spells(ts[i], ds[i])
    requires forall i | 0 <= i < |ts| :: SettingsFor(style, explode, name, StringItems).separator !in ts[i]
    ensures Deserialized(SettingsFor(style, explode, name, StringItems), StyleText(style, explode, name, ts)) ==
            Some(ArrayText(QuotedAll(ds)))
  {
    var g := SettingsFor(style, explode, name, StringItems);
    forall i | 0 <= i < |ts| ensures IsItem(g, ts[i], QuotedAll(ds)[i]) { SpelledIsItem(g, ts[i], ds[i]); }
    EveryStyleDeserializes(style, explode, name, StringItems, ts, QuotedAll(ds));
    hide Spells, Deserialized, ArrayText, StyleText;
  }

  /** For instance `a=x+y`, which is the array of the string `x y`. */
  lemma PlusIsSpace()
    ensures Deserialized(SettingsFor(Form, false, [0x61], StringItems), [0x61, 0x3D, 0x78, 0x2B, 0x79]) ==
            Some([0x5B, 0x22, 0x78, 0x20, 0x79, 0x22, 0x5D])
  {
    var t: Bytes, d: Bytes, name: Bytes := [0x78, 0x2B, 0x79], [0x78, 0x20, 0x79], [0x61];
    PlusSpelled();
    hide Spells, ArrayText, QuotedAll, Deserialized;
    SpelledStringsDeserialize(Form, false, name, [t], [d]);
    TextIsRest([d]);
    assert StyleText(Form, false, name, [t]) == name + [EQUALS] + (t + []);
    assert name + [EQUALS] + (t + []) == [0x61, 0x3D, 0x78, 0x2B, 0x79];
    assert [OPEN_BRACKET] + ([QUOTE] + d + [QUOTE] + [CLOSE_BRACKET]) == [0x5B, 0x22, 0x78, 0x20, 0x79, 0x22, 0x5D];
  }

  lemma PlusSpelled()
    ensures Spells([0x78, 0x2B, 0x79], [0x78, 0x20, 0x79])
  {
    var t: Bytes, d: Bytes := [0x78, 0x2B, 0x79], [0x78, 0x20, 0x79];
    assert t[1..] == [0x2B, 0x79] && t[1..][1..] == [0x79] && t[1..][1..][1..] == [];
    assert d[1..] == [0x20, 0x79] && d[1..][1..] == [0x79] && d[1..][1..][1..] == [];
  }

  // ----- items as the writer spells them -----

  function Texts(vs: seq<Value>): (outs: seq<Bytes>)
    ensures |outs| == |vs|
  {
    seq(|vs|, i requires 0 <= i < |vs| => Writers.TextOf(vs[i]))
  }

  lemma {:induction false} WrittenListed(vs: seq<Value>, k: nat)
    requires 0 < k <= |vs|
    ensures Writers.ElementsText(Array(vs), k) + [COMMA] + Listed(Texts(vs), k) == Listed(Texts(vs), 0)
  {
    hide Writers.TextOf;
    var outs, j := Texts(vs), Array(vs);
    ListedOnce(outs, k - 1);
    hide Listed;
    var rest := Listed(outs, k);
    assert outs[k - 1] == Writers.TextOf(vs[k - 1]);
    if k == 1 {
      assert Writers.ElementsText(j, 1) == [] + [] + outs[0] == outs[0];
    } else {
      WrittenListed(vs, k - 1);
      var before := Writers.ElementsText(j, k - 1);
      assert Writers.ElementsText(j, k) == before + [COMMA] + outs[k - 1];
      assert before + [COMMA] + outs[k - 1] + [COMMA] + rest == before + [COMMA] + (outs[k - 1] + [COMMA] + rest);
    }
  }

  lemma WrittenArray(vs: seq<Value>)
    requires vs != []
    ensures ArrayText(Texts(vs)) == Writers.TextOf(Array(vs))
  {
    var outs, t := Texts(vs), Writers.ElementsText(Array(vs), |vs|);
    WrittenListed(vs, |vs|);
    assert Listed(outs, |outs|) == [];
    assert t + [COMMA] + [] == t + [COMMA];
    assert (t + [COMMA])[..|t|] == t;
    hide Listed, Texts, Writers.ElementsText;
  }

  /** Items spelled as the writer spells values, say booleans and integers, denote the array of
      those values. */
  lemma TextsDenoteArray(vs: seq<Value>, convert: Converter)
    requires vs != [] && forall i | 0 <= i < |vs| :: WrittenTexts.Plain(vs[i])
    ensures RoundTrip.Denotes(ArrayText(Texts(vs)), convert, Array(vs))
  {
    assert WrittenTexts.Plain(Array(vs));
    hide *;
    WrittenArray(vs);
    RoundTrip.TextDenotes(Array(vs), convert);
  }
}
