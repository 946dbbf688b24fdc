/** Printing and parsing undo each other: `Accept` into a `Writer`, then `Parse` into a
    `Document`. */
module RoundTrip {
  import opened Common
  import opened Documents
  import opened Grammar
  import opened Json
  import opened Streams
  import opened Tokens
  import JsonTexts
  import ParserEquivalence
  import Reader
  import WrittenTexts
  import Writers

  // ----- no container ever pops more than was pushed -----

  predicate Enough(st: seq<Value>, e: Event) {
    (e.EndObjectEv? ==> |st| >= 2 * e.memberCount + 1) && (e.EndArrayEv? ==> |st| >= e.elementCount + 1)
  }

  /** Every container that ends finds its content, and itself below it, on the stack. */
  predicate Safe(st: seq<Value>, es: seq<Event>) {
    es == [] || (Safe(st, es[..|es| - 1]) && Enough(BuildAll(st, es[..|es| - 1]), es[|es| - 1]))
  }

  lemma {:induction false} SafeAppend(st: seq<Value>, a: seq<Event>, b: seq<Event>)
    requires Safe(st, a) && Safe(BuildAll(st, a), b)
    ensures Safe(st, a + b)
  {
    if b == [] {
      assert a + b == a;
    } else {
      var n := |b| - 1;
      assert (a + b)[..|a| + n] == a + b[..n];
      SafeAppend(st, a, b[..n]);
      BuildAppend(st, a, b[..n]);
    }
  }

  lemma SafeOne(st: seq<Value>, e: Event)
    requires Enough(st, e)
    ensures Safe(st, [e])
  {
    hide Build, Enough;
    assert [e][..0] == [];
    assert Safe(st, []) && BuildAll(st, []) == st;
  }

  lemma SameEnough(st: seq<Value>, e: Event)
    ensures Enough(st, Canonical(e)) == Enough(st, e)
  {
  }

  lemma {:induction false} SafeCanonical(st: seq<Value>, es: seq<Event>)
    ensures Safe(st, CanonicalAll(es)) == Safe(st, es)
  {
    if es != [] {
      var n := |es| - 1;
      SafeCanonical(st, es[..n]);
      CanonicalBuildsAll(st, es[..n]);
      SameEnough(BuildAll(st, es[..n]), es[n]);
      hide Enough, Canonical, BuildAll;
      assert CanonicalAll(es)[..n] == CanonicalAll(es[..n]);
    }
  }

  lemma SafeBetween(st: seq<Value>, start: Event, es: seq<Event>, end: Event)
    requires Enough(st, start) && Safe(Build(st, start), es) && Enough(BuildAll(Build(st, start), es), end)
    ensures Safe(st, [start] + es + [end])
  {
    SafeOne(st, start);
    BuildOne(st, start);
    hide Safe, Enough, BuildAll, Build;
    SafeAppend(st, [start], es);
    BuildAppend(st, [start], es);
    SafeOne(BuildAll(st, [start] + es), end);
    SafeAppend(st, [start] + es, [end]);
  }

  lemma {:induction false} SafeValue(st: seq<Value>, j: Value)
    ensures Safe(st, Events(j))
    decreases j, 1
  {
    if j.Array? {
      hide *;
      SafeElements(st + [Array([])], j, |j.es|);
      BuildsElements(st + [Array([])], j, |j.es|);
      SafeArray(st, j);
    } else if j.Object? {
      hide *;
      SafeMembers(st + [Object([])], j, |j.ms|);
      BuildsMembers(st + [Object([])], j, |j.ms|);
      SafeObject(st, j);
    } else {
      hide Safe, BuildAll;
      SafeOne(st, Events(j)[0]);
    }
  }

  lemma SafeArray(st: seq<Value>, j: Value)
    requires j.Array? && Safe(st + [Array([])], ElementEvents(j, |j.es|))
    requires BuildAll(st + [Array([])], ElementEvents(j, |j.es|)) == st + [Array([])] + j.es[..|j.es|]
    ensures Safe(st, Events(j))
  {
    hide Safe, BuildAll, ElementEvents;
    SafeBetween(st, StartArrayEv, ElementEvents(j, |j.es|), EndArrayEv(|j.es|));
  }

  lemma SafeObject(st: seq<Value>, j: Value)
    requires j.Object? && Safe(st + [Object([])], MemberEvents(j, |j.ms|))
    requires BuildAll(st + [Object([])], MemberEvents(j, |j.ms|)) == st + [Object([])] + Flat(j.ms[..|j.ms|])
    ensures Safe(st, Events(j))
  {
    hide Safe, BuildAll, MemberEvents, Flat;
    SafeBetween(st, StartObjectEv, MemberEvents(j, |j.ms|), EndObjectEv(|j.ms|));
  }

  lemma {:induction false} SafeElements(st: seq<Value>, j: Value, k: nat)
    requires j.Array? && k <= |j.es|
    ensures Safe(st, ElementEvents(j, k))
    decreases j, 0, k
  {
    if k > 0 {
      SafeElements(st, j, k - 1);
      SafeValue(BuildAll(st, ElementEvents(j, k - 1)), j.es[k - 1]);
      ElementEventsSplit(j, k);
      hide Safe, ElementEvents, Events, BuildAll;
      SafeAppend(st, ElementEvents(j, k - 1), Events(j.es[k - 1]));
    }
  }

  lemma {:induction false} SafeMembers(st: seq<Value>, j: Value, k: nat)
    requires j.Object? && k <= |j.ms|
    ensures Safe(st, MemberEvents(j, k))
    decreases j, 0, k
  {
    if k > 0 {
      var before := MemberEvents(j, k - 1);
      var key := KeyEv(j.ms[k - 1].name);
      SafeMembers(st, j, k - 1);
      SafeOne(BuildAll(st, before), key);
      SafeValue(BuildAll(st, before + [key]), j.ms[k - 1].value);
      MemberEventsSplit(j, k);
      hide Safe, MemberEvents, Events, BuildAll, Enough;
      SafeAppend(st, before, [key]);
      SafeAppend(st, before + [key], Events(j.ms[k - 1].value));
      assert before + [key] + Events(j.ms[k - 1].value) == before + ([key] + Events(j.ms[k - 1].value));
    }
  }

  // ----- the events of a parse that fails are safe, too -----

  /** What a whole value's events do to the stack. */
  lemma DoneIsSafe(s: Bytes, p: nat, convert: Converter, st: seq<Value>) returns (v: Value)
    requires p <= |s| && ValueAt(s, p, convert).Done?
    ensures var es := ValueAt(s, p, convert).events; Safe(st, es) && BuildAll(st, es) == st + [v]
  {
    v := JsonTexts.ValueIsTree(s, p, convert);
    hide *;
    var es := ValueAt(s, p, convert).events;
    SafeValue(st, v);
    SafeCanonical(st, es);
    CanonicalBuildsAll(st, es);
    BuildsValue(st, v);
  }

  /** Whatever is parsed, whole or not, no container ends with too little on the stack. */
  lemma {:induction false} ValueIsSafe(s: Bytes, p: nat, convert: Converter, st: seq<Value>)
    requires p <= |s|
    ensures Safe(st, ValueAt(s, p, convert).events)
    decreases |s| - p, 5
  {
    var r := ValueAt(s, p, convert);
    hide *;
    if r.Done? {
      var _ := DoneIsSafe(s, p, convert, st);
    } else if Peek(s, p) == OPEN_BRACE {
      InText(s, p);
      ParserEquivalence.UnfoldObject(s, p, convert);
      var i := SkipSpace(s, p + 1);
      AfterBracket(s, p);
      StartIsSafe(st);
      MembersAreSafe(s, i, 0, convert, Build(st, StartObjectEv));
      StartThen(st, StartObjectEv, MembersFrom(s, i, 0, convert));
    } else if Peek(s, p) == OPEN_BRACKET {
      InText(s, p);
      ParserEquivalence.UnfoldArray(s, p, convert);
      var i := SkipSpace(s, p + 1);
      AfterBracket(s, p);
      StartIsSafe(st);
      ElementsAreSafe(s, i, 0, convert, Build(st, StartArrayEv));
      StartThen(st, StartArrayEv, ElementsFrom(s, i, 0, convert));
    } else {
      ScalarIsSafe(s, p, convert, st);
    }
  }

  lemma InText(s: Bytes, p: nat)
    ensures Peek(s, p) == OPEN_BRACE || Peek(s, p) == OPEN_BRACKET || Peek(s, p) == COLON ==> p < |s|
  {
  }

  lemma AfterBracket(s: Bytes, p: nat)
    requires p < |s|
    ensures p < SkipSpace(s, p + 1) <= |s|
  {
  }

  lemma StartIsSafe(st: seq<Value>)
    ensures Enough(st, StartObjectEv) && Enough(st, StartArrayEv)
    ensures |Build(st, StartObjectEv)| == |Build(st, StartArrayEv)| == |st| + 1
  {
  }

  /** The start of a container in front of what follows. */
  lemma StartThen(st: seq<Value>, start: Event, rest: Outcome)
    requires Enough(st, start) && Safe(Build(st, start), rest.events)
    ensures Safe(st, Prefixed([start], rest).events)
  {
    SafeOne(st, start);
    BuildOne(st, start);
    SafeAppend(st, [start], rest.events);
    hide *;
    PrefixedIs([start], rest);
  }

  lemma PrefixedIs(before: seq<Event>, r: Outcome)
    ensures Prefixed(before, r).events == before + r.events
  {
  }

  lemma NothingIsSafe(st: seq<Value>)
    ensures Safe(st, [])
  {
  }

  lemma ScalarIsSafe(s: Bytes, p: nat, convert: Converter, st: seq<Value>)
    requires p <= |s| && ValueAt(s, p, convert).Failed? && Peek(s, p) != OPEN_BRACE && Peek(s, p) != OPEN_BRACKET
    ensures Safe(st, ValueAt(s, p, convert).events)
  {
    assert ValueAt(s, p, convert).events == [] by {
      hide StringFrom, DigitsValue, DigitsEnd, FoldedFraction, IntegerEnd, Matching;
    }
    NothingIsSafe(st);
  }

  /** One member from `p` on: its events are safe, and two values more are on the stack when
      another member follows. */
  lemma {:induction false} MemberIsSafe(s: Bytes, p: nat, count: nat, convert: Converter, st: seq<Value>)
    requires p <= |s| && |st| >= 2 * count + 1
    ensures var (r, more) := MemberAt(s, p, count, convert);
      Safe(st, r.events) && (more ==> |BuildAll(st, r.events)| == |st| + 2)
    decreases |s| - p, 6
  {
    hide *;
    NothingIsSafe(st);
    var key := StringAt(s, p, true);
    if Peek(s, p) == QUOTE && key.Done? {
      KeyIsSafe(s, p, st);
      var colon := SkipSpace(s, key.pos);
      InText(s, colon);
      if Peek(s, colon) == COLON {
        var q := SkipSpace(s, colon + 1);
        var value := ValueAt(s, q, convert);
        ValueIsSafe(s, q, convert, BuildAll(st, key.events));
        SafeAppend(st, key.events, value.events);
        if value.Done? {
          var v := DoneIsSafe(s, q, convert, BuildAll(st, key.events));
          BuildAppend(st, key.events, value.events);
          MemberEnds(st, key.events + value.events, count);
        }
      }
    }
    MemberEventsAre(s, p, count, convert);
  }

  /** The events of one turn of a member loop. */
  lemma MemberEventsAre(s: Bytes, p: nat, count: nat, convert: Converter)
    requires p <= |s|
    ensures var (r, more) := MemberAt(s, p, count, convert);
      var key := StringAt(s, p, true);
      if Peek(s, p) != QUOTE then r.events == [] && !more
      else if key.Failed? then r.events == [] && !more
      else
        var colon := SkipSpace(s, key.pos);
        if Peek(s, colon) != COLON then r.events == key.events && !more
        else
          var value := ValueAt(s, SkipSpace(s, colon + 1), convert);
          if value.Failed? then r.events == key.events + value.events && !more
          else
            var sent := key.events + value.events;
            (r.events == sent || (r.events == sent + [EndObjectEv(count + 1)] && !more))
  {
    hide ValueAt, StringAt, SkipSpace;
    FailedKey(s, p);
  }

  lemma FailedKey(s: Bytes, p: nat)
    ensures StringAt(s, p, true).Failed? ==> StringAt(s, p, true).events == []
  {
    hide StringFrom;
  }

  lemma KeyIsSafe(s: Bytes, p: nat, st: seq<Value>)
    requires StringAt(s, p, true).Done?
    ensures var es := StringAt(s, p, true).events; Safe(st, es) && |BuildAll(st, es)| == |st| + 1
  {
    var es := StringAt(s, p, true).events;
    assert es == [es[0]] && es[0].KeyEv? by { hide StringFrom; }
    SafeOne(st, es[0]);
    BuildOne(st, es[0]);
    hide StringAt, Safe, BuildAll;
  }

  lemma MemberEnds(st: seq<Value>, sent: seq<Event>, count: nat)
    requires Safe(st, sent) && |BuildAll(st, sent)| == |st| + 2 && |st| >= 2 * count + 1
    ensures Safe(st, sent + [EndObjectEv(count + 1)])
  {
    SafeOne(BuildAll(st, sent), EndObjectEv(count + 1));
    hide Safe, BuildAll;
    SafeAppend(st, sent, [EndObjectEv(count + 1)]);
  }

  /** Members from `p` on, where `count` are on the stack above their object. */
  lemma {:induction false} MembersAreSafe(s: Bytes, p: nat, count: nat, convert: Converter, st: seq<Value>)
    requires p <= |s| && |st| >= 2 * count + 1
    ensures Safe(st, MembersFrom(s, p, count, convert).events)
    decreases |s| - p, 7
  {
    hide *;
    MemberIsSafe(s, p, count, convert, st);
    UnfoldMember(s, p, count, convert);
    var (r, more) := MemberAt(s, p, count, convert);
    if more {
      MembersAreSafe(s, r.pos, count + 1, convert, BuildAll(st, r.events));
      SafeAppend(st, r.events, MembersFrom(s, r.pos, count + 1, convert).events);
      PrefixedIs(r.events, MembersFrom(s, r.pos, count + 1, convert));
    }
  }

  lemma {:induction false} ElementIsSafe(s: Bytes, p: nat, count: nat, convert: Converter, st: seq<Value>)
    requires p <= |s| && |st| >= count + 1
    ensures var (r, more) := ElementAt(s, p, count, convert);
      Safe(st, r.events) && (more ==> |BuildAll(st, r.events)| == |st| + 1)
    decreases |s| - p, 6
  {
    var value := ValueAt(s, p, convert);
    ValueIsSafe(s, p, convert, st);
    if value.Done? {
      var v := DoneIsSafe(s, p, convert, st);
      ElementEnds(st, value.events, count);
    }
    hide ValueAt, SkipSpace, Safe, BuildAll;
  }

  lemma ElementEnds(st: seq<Value>, sent: seq<Event>, count: nat)
    requires Safe(st, sent) && |BuildAll(st, sent)| == |st| + 1 && |st| >= count + 1
    ensures Safe(st, sent + [EndArrayEv(count + 1)])
  {
    SafeOne(BuildAll(st, sent), EndArrayEv(count + 1));
    hide Safe, BuildAll;
    SafeAppend(st, sent, [EndArrayEv(count + 1)]);
  }

  lemma {:induction false} ElementsAreSafe(s: Bytes, p: nat, count: nat, convert: Converter, st: seq<Value>)
    requires p <= |s| && |st| >= count + 1
    ensures Safe(st, ElementsFrom(s, p, count, convert).events)
    decreases |s| - p, 7
  {
    hide *;
    ElementIsSafe(s, p, count, convert, st);
    UnfoldElement(s, p, count, convert);
    var (r, more) := ElementAt(s, p, count, convert);
    if more {
      ElementsAreSafe(s, r.pos, count + 1, convert, BuildAll(st, r.events));
      SafeAppend(st, r.events, ElementsFrom(s, r.pos, count + 1, convert).events);
      PrefixedIs(r.events, ElementsFrom(s, r.pos, count + 1, convert));
    }
  }

  /** Every parse, successful or not, sends events that the construction stack can take. */
  lemma ParseIsSafe(s: Bytes, convert: Converter)
    ensures Safe([], Grammar.Parse(s, convert).events)
  {
    NothingIsSafe([]);
    var p := SkipSpace(s, 0);
    if Peek(s, p) != 0 {
      ValueIsSafe(s, p, convert, []);
    }
    hide ValueAt, SkipSpace, Safe;
  }

  // ----- `ParseStream` -----

  /** The handler calls of a parse, accepted or not, one after the other. */
  method Send(doc: GenericDocument, es: seq<Event>)
    requires Safe(doc.stack_, es)
    modifies doc
    ensures doc.stack_ == BuildAll(old(doc.stack_), es) && doc.root == old(doc.root)
  {
    var i := 0;
    ghost var st := doc.stack_;
    assert es[..|es|] == es && es[..0] == [];
    SafePrefix(st, es, 0);
    hide Build, Safe, Enough;
    while i < |es|
      invariant 0 <= i <= |es| && doc.stack_ == BuildAll(st, es[..i]) && doc.root == old(doc.root)
    {
      SafePrefix(st, es, i);
      BuildStep(st, es, i);
      Dispatch(doc, es[i]);
      i := i + 1;
    }
  }

  lemma BuildStep(st: seq<Value>, es: seq<Event>, i: nat)
    requires i < |es|
    ensures BuildAll(st, es[..i + 1]) == Build(BuildAll(st, es[..i]), es[i])
  {
    assert es[..i + 1][..i] == es[..i];
    hide Build;
  }

  lemma {:induction false} SafePrefix(st: seq<Value>, es: seq<Event>, i: nat)
    requires Safe(st, es) && i <= |es|
    ensures i < |es| ==> Enough(BuildAll(st, es[..i]), es[i])
    decreases |es|
  {
    if i < |es| - 1 {
      SafePrefix(st, es[..|es| - 1], i);
      assert es[..|es| - 1][..i] == es[..i];
    }
  }

  method Dispatch(doc: GenericDocument, e: Event)
    requires Enough(doc.stack_, e)
    modifies doc
    ensures doc.stack_ == Build(old(doc.stack_), e) && doc.root == old(doc.root)
  {
    hide Build;
    if e.StartObjectEv? { doc.StartObject(); }
    else if e.KeyEv? { doc.Key(e.s); }
    else if e.EndObjectEv? { doc.EndObject(e.memberCount); }
    else if e.StartArrayEv? { doc.StartArray(); }
    else if e.EndArrayEv? { doc.EndArray(e.elementCount); }
    else { doc.Scalar(e); }
  }

  /** The tree of an accepted text. */
  ghost predicate Denotes(s: Bytes, convert: Converter, v: Value) {
    Grammar.Parse(s, convert).Done? && CanonicalAll(Grammar.Parse(s, convert).events) == Events(v)
  }

  /** Accepted texts, and only those, denote a tree, and only one. */
  lemma DenotesOne(s: Bytes, convert: Converter) returns (v: Value)
    requires Grammar.Parse(s, convert).Done?
    ensures Denotes(s, convert, v)
    ensures forall w :: Denotes(s, convert, w) ==> w == v
  {
    v := JsonTexts.ValueIsTree(s, SkipSpace(s, 0), convert);
    forall w | Denotes(s, convert, w)
      ensures w == v
    {
      SameEvents(v, w);
    }
  }

  lemma SameEvents(v: Value, w: Value)
    requires Events(v) == Events(w)
    ensures v == w
  {
    BuildsValue([], v);
    BuildsValue([], w);
    assert ([] + [v])[0] == ([] + [w])[0];
  }

  /** `ParseStream`: the events of a parse, whole or cut off, go to the document's stack. On
      success it holds one root, which becomes the document; on any exit it is cleared. */
  method ParseStream(doc: GenericDocument, text: Bytes, convert: Converter) returns (failure: Option<(ParseErrorCode, nat)>)
    requires doc.stack_ == []
    modifies doc
    ensures failure.None? <==> Grammar.Parse(text, convert).Done?
    ensures failure.None? ==> Denotes(text, convert, doc.root)
    ensures failure.Some? ==>
              failure == Some((Grammar.Parse(text, convert).code, Grammar.Parse(text, convert).offset))
              && doc.root == old(doc.root)
    ensures doc.stack_ == []
  {
    var is_ := new StringStream(text);
    var reader := new Reader.GenericReader(is_, convert);
    hide Grammar.Parse;
    reader.Parse();
    failure := reader.failure;
    assert reader.sent == Grammar.Parse(text, convert).events by { assert [] + reader.sent == reader.sent; }
    ParseIsSafe(text, convert);
    Send(doc, reader.sent);
    if failure.None? {
      ghost var v := DenotesOne(text, convert);
      BuildsRoot(reader.sent, v);
      doc.root := doc.stack_[0];
    }
    doc.stack_ := [];
  }

  /** The events of a tree leave it alone on the stack. */
  lemma BuildsRoot(es: seq<Event>, v: Value)
    requires CanonicalAll(es) == Events(v)
    ensures BuildAll([], es) == [v]
  {
    CanonicalBuildsAll([], es);
    BuildsValue([], v);
    hide *;
    assert [] + [v] == [v];
  }

  // ----- the round trip -----

  /** The text the writer prints for a value denotes that value. */
  lemma TextDenotes(j: Value, convert: Converter)
    requires WrittenTexts.Plain(j)
    ensures Denotes(Writers.TextOf(j), convert, j)
  {
    hide *;
    var s, v := Writers.TextOf(j), WrittenTexts.SpellingOf(j);
    WrittenTexts.WrittenIsSpelled(j, convert);
    WholeSpelling(s, v, j, convert);
    JsonTexts.ValueReads(s, 0, v, convert);
    WholeText(s, convert);
    JsonTexts.ReadModerately(Grammar.ValueAt(s, 0, convert), |s|, Events(j));
    ParsedDenotes(s, convert, j);
  }

  lemma WholeSpelling(s: Bytes, v: JsonTexts.Spelling, j: Value, convert: Converter)
    requires WrittenTexts.Spelled(v, s, j, convert)
    ensures JsonTexts.IsSpelling(v) && JsonTexts.TextOf(v) == s && JsonTexts.TreeOf(v, convert) == j
    ensures JsonTexts.Converts(v, convert) && JsonTexts.Moderate(v)
    ensures s != [] && !IsSpace(s[0]) && s[0] != 0 && Sits(s, 0, s) && JsonTexts.Follows(v, Peek(s, 0 + |s|))
  {
    hide JsonTexts.TextOf, JsonTexts.TreeOf, JsonTexts.Converts, JsonTexts.Moderate, JsonTexts.IsSpelling, JsonTexts.Follows,
         IsSpace;
    JsonTexts.TextBegins(v);
    JsonTexts.EndFollows(v);
    assert s[0..|s|] == s;
  }

  lemma ParsedDenotes(s: Bytes, convert: Converter, j: Value)
    requires Grammar.Parse(s, convert).Done? && CanonicalAll(Grammar.Parse(s, convert).events) == Events(j)
    ensures Denotes(s, convert, j)
  {
  }

  /** A text that is one value. */
  lemma WholeText(s: Bytes, convert: Converter)
    requires s != [] && !IsSpace(s[0]) && s[0] != 0
    ensures var r := ValueAt(s, 0, convert);
      r.Done? && r.pos == |s| ==> Grammar.Parse(s, convert) == r
  {
    JsonTexts.NoSpace(s, 0);
    JsonTexts.NoSpace(s, |s|);
    hide ValueAt, SkipSpace;
  }

  /** A tree without floating-point numbers survives being written and parsed. */
  method WriteThenParse(j: Value, convert: Converter) returns (text: Bytes, back: Value, failure: Option<(ParseErrorCode, nat)>)
    requires WrittenTexts.Plain(j)
    ensures text == Writers.TextOf(j)
    ensures failure == None && back == j
  {
    var os := new OutputStream();
    var w := new Writers.Writer(os);
    Writers.Accept(j, w);
    text := os.out;
    assert [] + Writers.TextOf(j) == Writers.TextOf(j);
    TextDenotes(j, convert);
    var doc := new GenericDocument();
    failure := ParseStream(doc, text, convert);
    ghost var v := DenotesOne(text, convert);
    back := doc.root;
  }
}
