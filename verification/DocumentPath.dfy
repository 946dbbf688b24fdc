/** The document path of the streaming validator against the RFC 6901 path of the open containers. */
module DocumentPath {
  import opened Common
  import opened Json
  import opened Schema
  import opened Machine
  import opened Validation
  import MachineProof
  import Hasher
  import Pointers

  /** An open container as the event stream shows it: its kind, the next index, and
      the name or index text of the value being received. */
  datatype Frame = Frame(inArray: bool, next: nat, pending: Option<Bytes>)

  /** Section 3 of RFC 6901: a slash and the escaped token for every open level. */
  function Path(w: seq<Frame>): Bytes {
    if w == [] then []
    else
      var f := w[|w| - 1];
      Path(w[..|w| - 1]) + (if f.pending.Some? then [SLASH] + Escaped(f.pending.value) else [])
  }

  /** Calls a handler may receive at this point. */
  predicate Fits(w: seq<Frame>, e: Event) {
    if w == [] then BeginsValue(e)
    else
      var f := w[|w| - 1];
      if e.KeyEv? || e.EndObjectEv? then !f.inArray && f.pending.None?
      else if e.EndArrayEv? then f.inArray && f.pending.None?
      else f.inArray == f.pending.None?
  }

  function WithPending(w: seq<Frame>, pending: Option<Bytes>): seq<Frame> {
    if w == [] then [] else w[..|w| - 1] + [w[|w| - 1].(pending := pending)]
  }

  /** In an array, a value takes the next index. */
  function Entering(w: seq<Frame>): seq<Frame> {
    if w != [] && w[|w| - 1].inArray then
      var f := w[|w| - 1];
      w[..|w| - 1] + [f.(pending := Some(DecText(f.next)), next := f.next + 1)]
    else w
  }

  function Track(w: seq<Frame>, e: Event): seq<Frame> {
    if e.KeyEv? then WithPending(w, Some(e.s))
    else if e.EndObjectEv? || e.EndArrayEv? then
      if w == [] then [] else WithPending(w[..|w| - 1], None)
    else if e.StartObjectEv? then Entering(w) + [Frame(false, 0, None)]
    else if e.StartArrayEv? then Entering(w) + [Frame(true, 0, None)]
    else WithPending(Entering(w), None)
  }

  /** Every level but the innermost is inside one of its values. */
  predicate Nested(w: seq<Frame>) {
    forall i | 0 <= i < |w| - 1 :: w[i].pending.Some?
  }

  /** The validator's contexts mirror the open containers, and its path is theirs. */
  predicate Mirrors(v: Validator, w: seq<Frame>, base: Bytes) {
    && |v.schemaStack| == |w|
    && (forall i | 0 <= i < |w| ::
          v.schemaStack[i].inArray == w[i].inArray && (w[i].inArray ==> v.schemaStack[i].arrayElementIndex == w[i].next))
    && v.documentStack == base + Path(w)
  }

  lemma PathPending(w: seq<Frame>, token: Bytes)
    requires w != [] && w[|w| - 1].pending.None?
    ensures Path(WithPending(w, Some(token))) == Path(w) + ([SLASH] + Escaped(token))
    ensures Path(w) == Path(w[..|w| - 1])
  {
    var u := WithPending(w, Some(token));
    hide Escaped;
    assert u[..|u| - 1] == w[..|w| - 1];
    PathStep(w);
    PathStep(u);
    hide *;
    assert Path(w[..|w| - 1]) + [] == Path(w[..|w| - 1]);
  }

  lemma PathStep(w: seq<Frame>)
    requires w != []
    ensures Path(w) == Path(w[..|w| - 1]) +
                       (if w[|w| - 1].pending.Some? then [SLASH] + Escaped(w[|w| - 1].pending.value) else [])
  {
    hide Escaped;
  }

  lemma PathPopped(base: Bytes, w: seq<Frame>)
    requires w != [] && w[|w| - 1].pending.Some?
    ensures PopToken(base + Path(w)) == base + Path(WithPending(w, None))
  {
    var f := w[|w| - 1];
    var u := WithPending(w, None);
    assert u[..|u| - 1] == w[..|w| - 1];
    assert Path(u) == Path(w[..|w| - 1]) + [];
    assert base + Path(w) == (base + Path(w[..|w| - 1])) + [SLASH] + Escaped(f.pending.value);
    KeyPath(base + Path(w[..|w| - 1]), f.pending.value);
  }

  lemma {:induction false} DigitsUnescaped(t: Bytes)
    requires forall i | 0 <= i < |t| :: IsDigit(t[i])
    ensures Escaped(t) == t
    decreases |t|
  {
    if t != [] { DigitsUnescaped(t[1..]); }
  }

  /** Where a value ends, the validator drops exactly the token of that value. */
  lemma ValueEnds(v: Validator, w: seq<Frame>, base: Bytes)
    requires v.schemaStack != [] && |v.schemaStack| == |w| + 1
    requires forall i | 0 <= i < |w| ::
      v.schemaStack[i].inArray == w[i].inArray && (w[i].inArray ==> v.schemaStack[i].arrayElementIndex == w[i].next)
    requires v.documentStack == base + Path(w)
    requires (w == [] && base == []) || (w != [] && w[|w| - 1].pending.Some?)
    requires EndValue(v).valid
    ensures Mirrors(EndValue(v), WithPending(w, None), base)
  {
    hide EndValueCheck, Path, PopToken;
    if w != [] {
      PathPopped(base, w);
    } else {
      NoPath(base);
    }
  }

  lemma NoPath(base: Bytes)
    ensures Path([]) == [] && PopToken([]) == []
  {
  }

  ghost predicate SameShape(a: seq<Context>, b: seq<Context>) {
    |a| == |b| && forall i | 0 <= i < |a| ::
      a[i].inArray == b[i].inArray && a[i].arrayElementIndex == b[i].arrayElementIndex
  }

  lemma FeedShape(cs: seq<Context>, e: Event)
    ensures SameShape(Feed(cs, e), cs)
  {
    hide Step, Hasher.Step;
  }

  lemma KeyMirrors(v: Validator, w: seq<Frame>, e: Event, base: Bytes)
    requires v.valid && Mirrors(v, w, base) && w != [] && e.KeyEv? && Fits(w, e) && Step(v, e).valid
    ensures Mirrors(Step(v, e), Track(w, e), base)
  {
    hide Hasher.Step, MemberSchema, FindPropertyIndex, Escaped, Path, Feed;
    FeedShape(v.schemaStack, e);
    PathPending(w, e.s);
  }

  lemma EndMirrors(v: Validator, w: seq<Frame>, e: Event, base: Bytes)
    requires v.valid && Mirrors(v, w, base) && Nested(w) && w != [] && (e.EndObjectEv? || e.EndArrayEv?)
    requires Fits(w, e) && Step(v, e).valid && (base == [] || |w| > 1)
    ensures Mirrors(Step(v, e), Track(w, e), base)
  {
    FeedShape(v.schemaStack, e);
    var n := |v.schemaStack|;
    var fed := Feed(v.schemaStack, e);
    var inner := w[..n - 1];
    assert Path(w) == Path(inner) + [];
    var u := v.(schemaStack := if e.EndArrayEv? then fed[n - 1 := fed[n - 1].(inArray := false)] else fed);
    hide Hasher.Step, EndObjectCheck, EndArrayCheck, Path, Feed;
    assert Step(v, e) == EndValue(u);
    hide Step, EndValue;
    ValueEnds(u, inner, base);
  }

  lemma EnteringPath(w: seq<Frame>)
    requires w != [] ==> w[|w| - 1].inArray == w[|w| - 1].pending.None?
    ensures var u := Entering(w);
      && |u| == |w|
      && (w != [] ==> u[|u| - 1].pending.Some?)
      && Path(u) == Path(w) + (if w != [] && w[|w| - 1].inArray then [SLASH] + DecText(w[|w| - 1].next) else [])
  {
    hide DecText;
    if w != [] && w[|w| - 1].inArray {
      var f := w[|w| - 1];
      PathPending(w, DecText(f.next));
      DigitsText(f.next);
      var u := Entering(w);
      assert u[..|u| - 1] == w[..|w| - 1] == WithPending(w, Some(DecText(f.next)))[..|w| - 1];
    }
  }

  lemma DigitsText(n: nat)
    ensures Escaped(DecText(n)) == DecText(n)
  {
    DigitsUnescaped(DecText(n));
  }

  lemma BeginMirrors(v: Validator, w: seq<Frame>, e: Event, base: Bytes)
    requires v.valid && Mirrors(v, w, base) && BeginsValue(e) && Fits(w, e) && Step(v, e).valid
    requires base == [] || w != [] || !IsScalarEvent(e)
    ensures Mirrors(Step(v, e), Track(w, e), base)
  {
    EnteringPath(w);
    var u := Begun(v, w, e, base);
    if IsScalarEvent(e) {
      hide Step, Path, Entering, EndValue, Mirrors;
      ValueEnds(u, Entering(w), base);
    } else {
      ContainerMirrors(u, Entering(w), e.StartArrayEv?, base);
      hide Step, Path, Entering, EndValue, Mirrors;
    }
  }

  lemma ContainerMirrors(u: Validator, w: seq<Frame>, inArray: bool, base: Bytes)
    requires |u.schemaStack| == |w| + 1
    requires forall i | 0 <= i < |w| ::
      u.schemaStack[i].inArray == w[i].inArray && (w[i].inArray ==> u.schemaStack[i].arrayElementIndex == w[i].next)
    requires u.schemaStack[|w|].inArray == inArray && u.schemaStack[|w|].arrayElementIndex == 0
    requires u.documentStack == base + Path(w)
    ensures Mirrors(u, w + [Frame(inArray, 0, None)], base)
  {
    OpenPath(w, Frame(inArray, 0, None));
    hide Path;
  }

  lemma OpenPath(w: seq<Frame>, f: Frame)
    requires f.pending.None?
    ensures Path(w + [f]) == Path(w)
  {
    var u := w + [f];
    assert u[..|u| - 1] == w;
  }

  /** The state in which a value's own context is on top, before a scalar ends. */
  lemma Begun(v: Validator, w: seq<Frame>, e: Event, base: Bytes) returns (u: Validator)
    requires v.valid && Mirrors(v, w, base) && BeginsValue(e) && Fits(w, e) && Step(v, e).valid
    requires Path(Entering(w)) == Path(w) + (if w != [] && w[|w| - 1].inArray then [SLASH] + DecText(w[|w| - 1].next) else [])
    ensures |u.schemaStack| == |w| + 1
    ensures forall i | 0 <= i < |w| ::
      u.schemaStack[i].inArray == Entering(w)[i].inArray
      && (Entering(w)[i].inArray ==> u.schemaStack[i].arrayElementIndex == Entering(w)[i].next)
    ensures u.schemaStack[|w|].inArray == e.StartArrayEv? && u.schemaStack[|w|].arrayElementIndex == 0
    ensures u.documentStack == base + Path(Entering(w))
    ensures Step(v, e) == if IsScalarEvent(e) then EndValue(u) else u
  {
    hide Hasher.Step, StartCheck, ItemSchema, DecText, Path, HasRequired, SubCount, Sub, EndValueCheck, Feed;
    var n := |v.schemaStack|;
    if n == 0 {
      BeginFresh(v.root, v.documentStack, e);
      assert v == Fresh(v.root, v.documentStack);
      var c := Opened(v.root, false, v.documentStack, e).value;
      FeedShape(v.schemaStack, e);
      u := v.(schemaStack := Feed(v.schemaStack, e) + [c]);
    } else {
      var top := v.schemaStack[n - 1];
      var begun := BeginTop(top).1;
      var front := v.schemaStack[..n - 1];
      BeginInside(v, top, front, e);
      var at := v.(schemaStack := front + [begun], documentStack := PathFor(v, top));
      var c := Opened(begun.valueSchema.value, begun.valueUniqueness, at.documentStack, e).value;
      FeedShape(at.schemaStack, e);
      u := at.(schemaStack := Feed(at.schemaStack, e) + [c]);
    }
  }

  lemma StepMirrors(v: Validator, w: seq<Frame>, e: Event, base: Bytes)
    requires v.valid && Mirrors(v, w, base) && Nested(w) && Fits(w, e) && Step(v, e).valid
    requires base == [] || Track(w, e) != []
    ensures Mirrors(Step(v, e), Track(w, e), base) && Nested(Track(w, e))
  {
    hide Step, Mirrors, DecText, Path;
    if e.KeyEv? {
      KeyMirrors(v, w, e, base);
    } else if e.EndObjectEv? || e.EndArrayEv? {
      EndMirrors(v, w, e, base);
    } else {
      BeginMirrors(v, w, e, base);
    }
  }

  // ----- whole runs -----

  /** A run of calls that respects nesting; a sub-validator's run stays inside its value. */
  predicate Conforms(w: seq<Frame>, es: seq<Event>, base: Bytes)
    decreases |es|
  {
    es != [] ==> Fits(w, es[0]) && (base == [] || Track(w, es[0]) != []) && Conforms(Track(w, es[0]), es[1..], base)
  }

  function TrackAll(w: seq<Frame>, es: seq<Event>): seq<Frame>
    decreases |es|
  {
    if es == [] then w else TrackAll(Track(w, es[0]), es[1..])
  }

  /** The path invariant over every run that is still valid. */
  lemma {:induction false} PathOfRun(v: Validator, w: seq<Frame>, es: seq<Event>, base: Bytes)
    requires v.valid && Mirrors(v, w, base) && Nested(w) && Conforms(w, es, base) && Run(v, es).valid
    ensures Run(v, es).documentStack == base + Path(TrackAll(w, es))
    decreases |es|
  {
    hide Step, Track, Path, Fits;
    if es != [] {
      if !Step(v, es[0]).valid { MachineProof.RunInvalid(Step(v, es[0]), es[1..]); }
      StepMirrors(v, w, es[0], base);
      PathOfRun(Step(v, es[0]), Track(w, es[0]), es[1..], base);
    }
  }

  // ----- the calls of a value respect nesting -----

  /** A value may begin here. */
  predicate Open(w: seq<Frame>) {
    w != [] ==> w[|w| - 1].inArray == w[|w| - 1].pending.None?
  }

  function After(w: seq<Frame>): seq<Frame> {
    WithPending(Entering(w), None)
  }

  lemma {:induction false} ConformsAppend(w: seq<Frame>, a: seq<Event>, b: seq<Event>)
    ensures Conforms(w, a + b, []) <==> Conforms(w, a, []) && Conforms(TrackAll(w, a), b, [])
    ensures TrackAll(w, a + b) == TrackAll(TrackAll(w, a), b)
    decreases |a|
  {
    hide Track, Fits;
    if a == [] {
      assert a + b == b;
    } else {
      assert (a + b)[1..] == a[1..] + b;
      ConformsAppend(Track(w, a[0]), a[1..], b);
    }
  }

  lemma OneConforms(w: seq<Frame>, e: Event)
    ensures Conforms(w, [e], []) <==> Fits(w, e)
    ensures TrackAll(w, [e]) == Track(w, e)
  {
    hide Track, Fits;
    assert Conforms(Track(w, e), [], []) && TrackAll(Track(w, e), []) == Track(w, e);
  }

  /** Every value's calls respect nesting and leave the surroundings as after one value. */
  lemma {:induction false} EventsConform(w: seq<Frame>, j: Value)
    requires Open(w)
    ensures Conforms(w, Events(j), []) && TrackAll(w, Events(j)) == After(w)
    decreases j, 1
  {
    hide Conforms, TrackAll, ElementEvents, MemberEvents;
    if j.Array? {
      ElementsConform(w, j, |j.es|);
      ArrayCloses(w, j);
    } else if j.Object? {
      MembersConform(w, j, |j.ms|);
      ObjectCloses(w, j);
    } else {
      hide Conforms, TrackAll;
      OneConforms(w, Events(j)[0]);
      assert Events(j) == [Events(j)[0]];
    }
  }

  lemma ArrayCloses(w: seq<Frame>, j: Value)
    requires j.Array? && Open(w)
    requires var start := [StartArrayEv] + ElementEvents(j, |j.es|);
      Conforms(w, start, []) && TrackAll(w, start) == Entering(w) + [Frame(true, |j.es|, None)]
    ensures Conforms(w, Events(j), []) && TrackAll(w, Events(j)) == After(w)
  {
    hide Conforms, TrackAll, ElementEvents, MemberEvents, Entering;
    var n, start := |j.es|, [StartArrayEv] + ElementEvents(j, |j.es|);
    assert Events(j) == start + [EndArrayEv(n)];
    ConformsAppend(w, start, [EndArrayEv(n)]);
    OneConforms(TrackAll(w, start), EndArrayEv(n));
    assert (Entering(w) + [Frame(true, n, None)])[..|Entering(w)|] == Entering(w);
  }

  lemma ObjectCloses(w: seq<Frame>, j: Value)
    requires j.Object? && Open(w)
    requires var start := [StartObjectEv] + MemberEvents(j, |j.ms|);
      Conforms(w, start, []) && TrackAll(w, start) == Entering(w) + [Frame(false, 0, None)]
    ensures Conforms(w, Events(j), []) && TrackAll(w, Events(j)) == After(w)
  {
    hide Conforms, TrackAll, ElementEvents, MemberEvents, Entering;
    var n, start := |j.ms|, [StartObjectEv] + MemberEvents(j, |j.ms|);
    assert Events(j) == start + [EndObjectEv(n)];
    ConformsAppend(w, start, [EndObjectEv(n)]);
    OneConforms(TrackAll(w, start), EndObjectEv(n));
    assert (Entering(w) + [Frame(false, 0, None)])[..|Entering(w)|] == Entering(w);
  }

  lemma {:induction false} ElementsConform(w: seq<Frame>, j: Value, k: nat)
    requires j.Array? && k <= |j.es| && Open(w)
    ensures var es := [StartArrayEv] + ElementEvents(j, k);
      Conforms(w, es, []) && TrackAll(w, es) == Entering(w) + [Frame(true, k, None)]
    decreases j, 0, k
  {
    hide Conforms, TrackAll, Events, Entering;
    if k == 0 {
      assert [StartArrayEv] + ElementEvents(j, 0) == [StartArrayEv];
      OneConforms(w, StartArrayEv);
    } else {
      ElementsConform(w, j, k - 1);
      var pre := [StartArrayEv] + ElementEvents(j, k - 1);
      var inner := Entering(w) + [Frame(true, k - 1, None)];
      assert [StartArrayEv] + ElementEvents(j, k) == pre + Events(j.es[k - 1]);
      EventsConform(inner, j.es[k - 1]);
      ConformsAppend(w, pre, Events(j.es[k - 1]));
      AfterElement(Entering(w), k - 1);
    }
  }

  lemma AfterElement(w: seq<Frame>, k: nat)
    ensures After(w + [Frame(true, k, None)]) == w + [Frame(true, k + 1, None)]
  {
    hide DecText;
  }

  lemma {:induction false} MembersConform(w: seq<Frame>, j: Value, k: nat)
    requires j.Object? && k <= |j.ms| && Open(w)
    ensures var es := [StartObjectEv] + MemberEvents(j, k);
      Conforms(w, es, []) && TrackAll(w, es) == Entering(w) + [Frame(false, 0, None)]
    decreases j, 0, k
  {
    hide Conforms, TrackAll, Events;
    if k == 0 {
      assert [StartObjectEv] + MemberEvents(j, 0) == [StartObjectEv];
      OneConforms(w, StartObjectEv);
    } else {
      MembersConform(w, j, k - 1);
      var m, key := j.ms[k - 1], KeyEv(j.ms[k - 1].name);
      var pre := [StartObjectEv] + MemberEvents(j, k - 1);
      var inner := Entering(w) + [Frame(false, 0, None)];
      var named := Entering(w) + [Frame(false, 0, Some(m.name))];
      assert [StartObjectEv] + MemberEvents(j, k) == (pre + [key]) + Events(m.value);
      OneConforms(inner, key);
      ConformsAppend(w, pre, [key]);
      assert Track(inner, key) == named;
      EventsConform(named, m.value);
      ConformsAppend(w, pre + [key], Events(m.value));
      assert After(named) == inner;
    }
  }

  // ----- the path as a JSON Pointer -----

  /** The names and index texts of the values being received, outermost first. */
  function Pending(w: seq<Frame>): seq<Bytes> {
    if w == [] then []
    else
      var f := w[|w| - 1];
      Pending(w[..|w| - 1]) + (if f.pending.Some? then [f.pending.value] else [])
  }

  lemma {:induction false} EscapedIsText(name: Bytes, j: nat)
    requires j <= |name|
    ensures Pointers.NameText(name, j, false) == Some(Escaped(name[j..]))
    decreases |name| - j
  {
    if j < |name| {
      assert name[j..][1..] == name[j + 1..];
      EscapedIsText(name, j + 1);
    }
  }

  lemma {:induction false} NamesTextSnoc(names: seq<Bytes>, name: Bytes)
    requires Pointers.NamesText(names, false).Some?
    ensures Pointers.NamesText(names + [name], false) == Some(Pointers.NamesText(names, false).value + ([SLASH] + Escaped(name)))
    decreases |names|
  {
    hide Pointers.NameText, Escaped;
    if names == [] {
      EscapedIsText(name, 0);
      assert name[0..] == name && [name][1..] == [];
      assert [] + [name] == [name];
      assert [SLASH] + Escaped(name) + [] == [] + ([SLASH] + Escaped(name));
    } else {
      assert (names + [name])[1..] == names[1..] + [name];
      NamesTextSnoc(names[1..], name);
      var first, rest := Pointers.NameText(names[0], 0, false).value, Pointers.NamesText(names[1..], false).value;
      assert [SLASH] + first + (rest + ([SLASH] + Escaped(name))) == [SLASH] + first + rest + ([SLASH] + Escaped(name));
    }
  }

  lemma {:induction false} PathIsText(w: seq<Frame>)
    ensures Pointers.NamesText(Pending(w), false) == Some(Path(w))
  {
    if w != [] {
      hide Pointers.NamesText, Escaped;
      PathIsText(w[..|w| - 1]);
      var f := w[|w| - 1];
      var before, names := Path(w[..|w| - 1]), Pending(w[..|w| - 1]);
      if f.pending.Some? {
        NamesTextSnoc(names, f.pending.value);
      } else {
        assert before + [] == before && names + [] == names;
      }
    }
  }

  /** `Parse` reads the pending names back from the path. */
  lemma PathParses(w: seq<Frame>)
    ensures Pointers.ParseNames(Path(w)) == Pointers.Names(Pending(w))
  {
    PathIsText(w);
    hide Pointers.NamesText, Path, Pending, Pointers.ParseNames;
    assert [] + Path(w) == Path(w);
    Pointers.PrintedPointerParses(Pending(w), false);
  }

  /** For every schema, value and point of the value's calls: while the validator is valid, its
      document path is the JSON Pointer to the value being received: read as one, it gives the
      names and indices that lead there. */
  lemma ValuePath(s: Schema, j: Value, k: nat)
    requires k <= |Events(j)| && Run(Fresh(s, []), Events(j)[..k]).valid
    ensures var path := Run(Fresh(s, []), Events(j)[..k]).documentStack;
      path == Path(TrackAll([], Events(j)[..k])) && Pointers.ParseNames(path) == Pointers.Names(Pending(TrackAll([], Events(j)[..k])))
  {
    var p := Events(j)[..k];
    EventsConform([], j);
    assert Events(j) == p + Events(j)[k..];
    ConformsAppend([], p, Events(j)[k..]);
    PathOfRun(Fresh(s, []), [], p, []);
    assert [] + Path(TrackAll([], p)) == Path(TrackAll([], p));
    PathParses(TrackAll([], p));
  }

  /** While the member of the name `a/b` is being received, the path is `/a~1b`. */
  lemma NameWithSlash(s: Schema, es: seq<Event>)
    requires es == [StartObjectEv, KeyEv([0x61, 0x2F, 0x62])] && Run(Fresh(s, []), es).valid
    ensures Run(Fresh(s, []), es).documentStack == [0x2F, 0x61, 0x7E, 0x31, 0x62]
  {
    hide *;
    var name := [0x61, 0x2F, 0x62];
    var j := Object([Member(name, Null)]);
    FirstCalls(j, name);
    ValuePath(s, j, 2);
    FirstName(name);
    SlashEscaped();
  }

  lemma FirstCalls(j: Value, name: Bytes)
    requires j == Object([Member(name, Null)])
    ensures |Events(j)| >= 2 && Events(j)[..2] == [StartObjectEv, KeyEv(name)]
  {
    assert MemberEvents(j, 1) == MemberEvents(j, 0) + [KeyEv(name)] + [NullEv];
  }

  lemma FirstName(name: Bytes)
    ensures Path(TrackAll([], [StartObjectEv, KeyEv(name)])) == [SLASH] + Escaped(name)
  {
    hide Escaped;
    var es := [StartObjectEv, KeyEv(name)];
    assert es[1..] == [KeyEv(name)] && [KeyEv(name)][1..] == [];
    var w := [Frame(false, 0, Some(name))];
    var start := Track([], StartObjectEv);
    assert start == [Frame(false, 0, None)] && Track(start, KeyEv(name)) == w;
    assert TrackAll(start, [KeyEv(name)]) == TrackAll(w, []) == w;
    assert w[..0] == [];
    assert Path(w) == [] + ([SLASH] + Escaped(name));
  }

  lemma SlashEscaped()
    ensures [SLASH] + Escaped([0x61, 0x2F, 0x62]) == [0x2F, 0x61, 0x7E, 0x31, 0x62]
  {
    var name: Bytes := [0x61, 0x2F, 0x62];
    assert name[1..] == [0x2F, 0x62] && name[1..][1..] == [0x62] && name[1..][1..][1..] == [];
  }
}
