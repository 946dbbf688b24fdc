/** `RemoveDotSegments` of uri.h, in place, against section 5.2.4 of RFC 3986. */
module DotSegments {
  import opened Common

  const DOT: Bytes := [POINT]
  const DOT_DOT: Bytes := [POINT, POINT]

  // ----- RFC 3986, section 5.2.4 -----

  /** The output buffer without its last segment and the slash before it. */
  function DropLast(out: Bytes): (r: Bytes)
    ensures |r| <= |out|
    ensures out != [] ==> |r| < |out|
  {
    if out == [] then []
    else if out[|out| - 1] == SLASH then out[..|out| - 1]
    else DropLast(out[..|out| - 1])
  }

  /** Where the segment at `p` ends. */
  function SegmentEnd(s: Bytes, p: nat): (q: nat)
    requires p <= |s|
    ensures p <= q <= |s| && (q < |s| ==> s[q] == SLASH) && forall i | p <= i < q :: s[i] != SLASH
    decreases |s| - p
  {
    if p < |s| && s[p] != SLASH then SegmentEnd(s, p + 1) else p
  }

  /** The routine: the input buffer is consumed from the front. */
  function RemoveDots(input: Bytes, out: Bytes): Bytes
    decreases |input|
  {
    if input == [] then out
    else if DOT_DOT + [SLASH] <= input then RemoveDots(input[3..], out)
    else if DOT + [SLASH] <= input then RemoveDots(input[2..], out)
    else if [SLASH] + DOT + [SLASH] <= input then RemoveDots(input[2..], out)
    else if input == [SLASH] + DOT then RemoveDots([SLASH], out)
    else if [SLASH] + DOT_DOT + [SLASH] <= input then RemoveDots(input[3..], DropLast(out))
    else if input == [SLASH] + DOT_DOT then RemoveDots([SLASH], DropLast(out))
    else if input == DOT || input == DOT_DOT then out
    else
      var n := SegmentEnd(input, 1);
      RemoveDots(input[n..], out + input[..n])
  }

  // ----- paths as segments -----

  predicate IsSegment(s: Bytes) {
    forall i | 0 <= i < |s| :: s[i] != SLASH
  }

  /** A path that is empty or begins with a slash, as its segments. */
  function Join(segments: seq<Bytes>): (s: Bytes)
    ensures s != [] ==> s[0] == SLASH
  {
    if segments == [] then [] else [SLASH] + segments[0] + Join(segments[1..])
  }

  predicate AllSegments(segments: seq<Bytes>) {
    forall i | 0 <= i < |segments| :: IsSegment(segments[i])
  }

  predicate NoDots(segments: seq<Bytes>) {
    forall i | 0 <= i < |segments| :: segments[i] != DOT && segments[i] != DOT_DOT
  }

  /** What is left to read after a dot segment: a slash stands for the end. */
  function AfterDots(tail: Bytes): Bytes {
    if tail == [] then [SLASH] else tail
  }

  /** One turn of the routine, on a path that begins with a slash. */
  lemma RemoveOne(segment: Bytes, tail: Bytes, out: Bytes)
    requires IsSegment(segment) && (tail != [] ==> tail[0] == SLASH)
    ensures RemoveDots([SLASH] + segment + tail, out) ==
      if segment == DOT_DOT then RemoveDots(AfterDots(tail), DropLast(out))
      else if segment == DOT then RemoveDots(AfterDots(tail), out)
      else RemoveDots(tail, out + [SLASH] + segment)
  {
    if segment == DOT {
      RemoveDot(tail, out);
    } else if segment == DOT_DOT {
      RemoveDotDot(tail, out);
    } else {
      RemoveOther(segment, tail, out);
    }
  }

  lemma RemoveDot(tail: Bytes, out: Bytes)
    requires tail != [] ==> tail[0] == SLASH
    ensures RemoveDots([SLASH] + DOT + tail, out) == RemoveDots(AfterDots(tail), out)
  {
    var input := [SLASH] + DOT + tail;
    assert input[0] == SLASH && input[1] == POINT;
    if tail != [] {
      assert [SLASH] + DOT + [SLASH] <= input && input[2..] == tail;
    } else {
      assert input == [SLASH] + DOT;
    }
    hide DropLast, SegmentEnd;
  }

  lemma RemoveDotDot(tail: Bytes, out: Bytes)
    requires tail != [] ==> tail[0] == SLASH
    ensures RemoveDots([SLASH] + DOT_DOT + tail, out) == RemoveDots(AfterDots(tail), DropLast(out))
  {
    var input := [SLASH] + DOT_DOT + tail;
    assert input[0] == SLASH && input[1] == POINT && input[2] == POINT;
    if tail != [] {
      assert [SLASH] + DOT_DOT + [SLASH] <= input && input[3..] == tail;
    } else {
      assert input == [SLASH] + DOT_DOT;
    }
    hide DropLast, SegmentEnd;
  }

  lemma RemoveOther(segment: Bytes, tail: Bytes, out: Bytes)
    requires IsSegment(segment) && (tail != [] ==> tail[0] == SLASH) && segment != DOT && segment != DOT_DOT
    ensures RemoveDots([SLASH] + segment + tail, out) == RemoveDots(tail, out + [SLASH] + segment)
  {
    var input := [SLASH] + segment + tail;
    FirstSegment(segment, tail);
    OtherSegment(segment, tail);
    hide DropLast, SegmentEnd, IsSegment;
    var n := 1 + |segment|;
    assert input[..n] == [SLASH] + segment && input[n..] == tail;
    assert out + ([SLASH] + segment) == out + [SLASH] + segment;
  }

  lemma FirstSegment(segment: Bytes, tail: Bytes)
    requires IsSegment(segment) && (tail != [] ==> tail[0] == SLASH)
    ensures SegmentEnd([SLASH] + segment + tail, 1) == 1 + |segment|
  {
    var input := [SLASH] + segment + tail;
    assert forall i | 1 <= i < 1 + |segment| :: input[i] == segment[i - 1];
    assert tail != [] ==> input[1 + |segment|] == tail[0];
  }

  /** No other rule of the routine applies to an ordinary segment. */
  lemma OtherSegment(segment: Bytes, tail: Bytes)
    requires IsSegment(segment) && (tail != [] ==> tail[0] == SLASH) && segment != DOT && segment != DOT_DOT
    ensures var input := [SLASH] + segment + tail;
      && !(DOT_DOT + [SLASH] <= input) && !(DOT + [SLASH] <= input)
      && !([SLASH] + DOT + [SLASH] <= input) && !([SLASH] + DOT_DOT + [SLASH] <= input)
      && input != [SLASH] + DOT && input != [SLASH] + DOT_DOT && input != DOT && input != DOT_DOT
  {
    var input := [SLASH] + segment + tail;
    assert input[0] == SLASH;
    if |segment| >= 1 { assert input[1] == segment[0]; }
    if |segment| >= 2 { assert input[2] == segment[1]; }
    if |segment| >= 3 { assert input[3] == segment[2]; }
    if |segment| == 0 && tail != [] { assert input[1] == tail[0]; }
    if |segment| == 1 { assert segment == [segment[0]]; }
    if |segment| == 2 { assert segment == [segment[0], segment[1]]; }
  }

  /** The same on segments: what is kept, after `done`. */
  function Resolve(segments: seq<Bytes>, done: seq<Bytes>): seq<Bytes>
    decreases |segments|
  {
    if segments == [] then done
    else
      var s, rest := segments[0], segments[1..];
      if s == DOT_DOT || s == DOT then
        var kept := if s == DOT || done == [] then done else done[..|done| - 1];
        if rest == [] then kept + [[]] else Resolve(rest, kept)
      else Resolve(rest, done + [s])
  }

  lemma {:induction false} JoinAppend(a: seq<Bytes>, b: seq<Bytes>)
    ensures Join(a + b) == Join(a) + Join(b)
  {
    if a == [] {
      assert a + b == b;
    } else {
      assert (a + b)[0] == a[0] && (a + b)[1..] == a[1..] + b;
      JoinAppend(a[1..], b);
    }
  }

  lemma JoinOne(s: Bytes)
    ensures Join([s]) == [SLASH] + s
  {
    assert [s][1..] == [];
  }

  lemma {:induction false} DropSegment(out: Bytes, s: Bytes)
    requires IsSegment(s)
    ensures DropLast(out + [SLASH] + s) == out
    decreases |s|
  {
    var all := out + [SLASH] + s;
    if s == [] {
      assert all[..|all| - 1] == out;
    } else {
      assert all[..|all| - 1] == out + [SLASH] + s[..|s| - 1];
      DropSegment(out, s[..|s| - 1]);
    }
  }

  lemma DropLastSegment(done: seq<Bytes>)
    requires done != [] && AllSegments(done)
    ensures DropLast(Join(done)) == Join(done[..|done| - 1])
  {
    hide Join, DropLast;
    var n := |done| - 1;
    assert done == done[..n] + [done[n]];
    JoinAppend(done[..n], [done[n]]);
    JoinOne(done[n]);
    assert Join(done[..n]) + ([SLASH] + done[n]) == Join(done[..n]) + [SLASH] + done[n];
    DropSegment(Join(done[..n]), done[n]);
  }

  lemma RemoveSlash(out: Bytes)
    ensures RemoveDots([SLASH], out) == out + [SLASH]
  {
    RemoveOne([], [], out);
    assert [SLASH] + [] + [] == [SLASH] && out + [SLASH] + [] == out + [SLASH];
  }

  lemma DropNothing()
    ensures DropLast([]) == []
  {
  }

  /** The routine works segment by segment. */
  lemma {:induction false} RemovesSegments(segments: seq<Bytes>, done: seq<Bytes>)
    requires AllSegments(segments) && AllSegments(done)
    ensures RemoveDots(Join(segments), Join(done)) == Join(Resolve(segments, done))
    decreases |segments|
  {
    if segments != [] {
      hide RemoveDots, DropLast;
      var s, rest := segments[0], segments[1..];
      RemoveOne(s, Join(rest), Join(done));
      var kept := if s == DOT || done == [] then done else done[..|done| - 1];
      if done != [] { DropLastSegment(done); } else { DropNothing(); }
      if s == DOT_DOT || s == DOT {
        if rest == [] {
          RemoveSlash(Join(kept));
          JoinAppend(kept, [[]]);
          JoinOne([]);
        } else {
          RemovesSegments(rest, kept);
        }
      } else {
        JoinAppend(done, [s]);
        JoinOne(s);
        assert Join(done) + ([SLASH] + s) == Join(done) + [SLASH] + s;
        RemovesSegments(rest, done + [s]);
      }
    }
  }

  lemma {:induction false} ResolvesDots(segments: seq<Bytes>, done: seq<Bytes>)
    requires AllSegments(segments) && AllSegments(done) && NoDots(done)
    ensures AllSegments(Resolve(segments, done)) && NoDots(Resolve(segments, done))
    decreases |segments|
  {
    if segments != [] {
      var s, rest := segments[0], segments[1..];
      if s == DOT_DOT || s == DOT {
        var kept := if s == DOT || done == [] then done else done[..|done| - 1];
        if rest != [] { ResolvesDots(rest, kept); }
      } else {
        ResolvesDots(rest, done + [s]);
      }
    }
  }

  lemma {:induction false} ResolvesNothing(segments: seq<Bytes>, done: seq<Bytes>)
    requires NoDots(segments)
    ensures Resolve(segments, done) == done + segments
    decreases |segments|
  {
    if segments != [] {
      ResolvesNothing(segments[1..], done + [segments[0]]);
      assert done + [segments[0]] + segments[1..] == done + segments;
    }
  }

  /** Every path that begins with a slash is the join of its segments. */
  lemma {:induction false} Split(path: Bytes) returns (segments: seq<Bytes>)
    requires path != [] ==> path[0] == SLASH
    ensures AllSegments(segments) && Join(segments) == path
    decreases |path|
  {
    if path == [] {
      segments := [];
    } else {
      var n := SegmentEnd(path, 1);
      var rest := Split(path[n..]);
      segments := [path[1..n]] + rest;
      assert segments[1..] == rest;
      assert path == [SLASH] + path[1..n] + path[n..];
    }
  }

  /** No dot segment is left. */
  lemma NoDotSegmentLeft(path: Bytes) returns (segments: seq<Bytes>)
    requires path != [] ==> path[0] == SLASH
    ensures AllSegments(segments) && NoDots(segments) && RemoveDots(path, []) == Join(segments)
  {
    var before := Split(path);
    RemovesSegments(before, []);
    ResolvesDots(before, []);
    segments := Resolve(before, []);
  }

  /** Removing dot segments again changes nothing. */
  lemma Idempotent(path: Bytes)
    requires path != [] ==> path[0] == SLASH
    ensures RemoveDots(RemoveDots(path, []), []) == RemoveDots(path, [])
  {
    var segments := NoDotSegmentLeft(path);
    RemovesSegments(segments, []);
    ResolvesNothing(segments, []);
    assert [] + segments == segments;
  }

  // ----- what the loop leaves, on every path -----

  /** Segments with a slash behind each. */
  function Slashed(segments: seq<Bytes>): Bytes {
    if segments == [] then [] else Slashed(segments[..|segments| - 1]) + segments[|segments| - 1] + [SLASH]
  }

  /** What backing up leaves of the segments kept: the last one goes, unless it is an empty
      segment that stands first. */
  function BackedUp(kept: seq<Bytes>): seq<Bytes> {
    if kept == [] || kept == [[]] then kept else kept[..|kept| - 1]
  }

  /** The loop from position `p` on, with `kept` segments so far. */
  function Tidied(path: Bytes, p: nat, kept: seq<Bytes>): Bytes
    decreases |path| - p
  {
    if p >= |path| then Slashed(kept)
    else
      var e := SegmentEnd(path, p);
      var segment := path[p..e];
      if segment == DOT_DOT then Tidied(path, e + 1, BackedUp(kept))
      else if segment == DOT then Tidied(path, e + 1, kept)
      else if e < |path| then Tidied(path, e + 1, kept + [segment])
      else Slashed(kept) + segment
  }

  /** Whether the loop ends a slash short of the routine, from position `p` on. What decides
      is how many segments stand, whether the first of them is empty, and whether a slash is
      missing so far: it goes missing when `..` takes away the first segment of a path without
      a leading slash, and is made up for when a later `..` meets an empty segment that stands
      alone, which the loop keeps and the routine takes away. */
  predicate SlashLost(path: Bytes, p: nat, standing: nat, emptyFirst: bool, lost: bool)
    decreases |path| - p
  {
    if p >= |path| then lost
    else
      var e := SegmentEnd(path, p);
      var segment := path[p..e];
      if segment == DOT_DOT then
        if standing == 0 then SlashLost(path, e + 1, 0, emptyFirst, lost)
        else if standing == 1 then
          if emptyFirst then SlashLost(path, e + 1, 1, true, false) else SlashLost(path, e + 1, 0, false, true)
        else SlashLost(path, e + 1, standing - 1, emptyFirst, lost)
      else if segment == DOT then SlashLost(path, e + 1, standing, emptyFirst, lost)
      else SlashLost(path, e + 1, standing + 1, if standing == 0 then segment == [] else emptyFirst, lost)
  }

  predicate EmptyFirst(kept: seq<Bytes>) {
    kept != [] && kept[0] == []
  }

  /** The routine's output buffer with the slash that its input buffer begins with. */
  function Lead(kept: seq<Bytes>, lost: bool): Bytes {
    (if lost then [SLASH] else []) + Slashed(kept)
  }

  /** The routine where the loop is at `p`. */
  function RoutineAt(path: Bytes, p: nat, lead: Bytes): Bytes
    requires p <= |path|
  {
    if lead == [] then RemoveDots(path[p..], []) else RemoveDots([SLASH] + path[p..], lead[..|lead| - 1])
  }

  /** The routine after a whole segment, whose slash may be missing at the end. */
  function RoutineAfter(path: Bytes, e: nat, lead: Bytes): Bytes
    requires e <= |path|
  {
    if e == |path| then lead else RoutineAt(path, e + 1, lead)
  }

  lemma LeadEnds(kept: seq<Bytes>, lost: bool)
    ensures Lead(kept, lost) != [] ==> Lead(kept, lost)[|Lead(kept, lost)| - 1] == SLASH
    ensures Lead(kept, lost) == [] <==> kept == [] && !lost
  {
  }

  /** After a dot segment. */
  lemma AfterDotSegment(path: Bytes, e: nat, lead: Bytes)
    requires e <= |path| && (e < |path| ==> path[e] == SLASH) && lead != [] && lead[|lead| - 1] == SLASH
    ensures RemoveDots(AfterDots(path[e..]), lead[..|lead| - 1]) == RoutineAfter(path, e, lead)
  {
    hide RemoveDots;
    assert lead[..|lead| - 1] + [SLASH] == lead;
    if e == |path| {
      assert path[e..] == [];
      RemoveSlash(lead[..|lead| - 1]);
    } else {
      assert [SLASH] + path[e + 1..] == path[e..];
    }
  }

  /** After an ordinary one. */
  lemma AfterSegment(path: Bytes, e: nat, out: Bytes)
    requires e <= |path| && (e < |path| ==> path[e] == SLASH)
    ensures RemoveDots(path[e..], out) == RoutineAfter(path, e, if e < |path| then out + [SLASH] else out)
  {
    hide RemoveDots;
    if e == |path| {
      assert path[e..] == [];
      RemoveNothing(out);
    } else {
      assert [SLASH] + path[e + 1..] == path[e..];
      assert (out + [SLASH])[..|out|] == out;
    }
  }

  lemma RemoveNothing(out: Bytes)
    ensures RemoveDots([], out) == out
  {
  }

  /** One segment, where something has been kept or a slash is missing. */
  lemma SegmentInside(path: Bytes, p: nat, lead: Bytes)
    requires p < |path| && lead != [] && lead[|lead| - 1] == SLASH
    ensures var e := SegmentEnd(path, p);
      var segment := path[p..e];
      RoutineAt(path, p, lead) ==
      if segment == DOT_DOT then RoutineAfter(path, e, DropLast(lead[..|lead| - 1]) + [SLASH])
      else if segment == DOT then RoutineAfter(path, e, lead)
      else RoutineAfter(path, e, lead + segment + if e < |path| then [SLASH] else [])
  {
    var e := SegmentEnd(path, p);
    var segment, tail, out := path[p..e], path[e..], lead[..|lead| - 1];
    assert [SLASH] + path[p..] == [SLASH] + segment + tail;
    assert out + [SLASH] == lead && IsSegment(segment);
    assert lead + segment + [] == lead + segment;
    hide *;
    RemoveOne(segment, tail, out);
    InsideIs(path, p, lead);
    if segment == DOT_DOT {
      var back := DropLast(out) + [SLASH];
      assert back[..|back| - 1] == DropLast(out);
      AfterDotSegment(path, e, back);
    } else if segment == DOT {
      AfterDotSegment(path, e, lead);
    } else {
      AfterSegment(path, e, lead + segment);
    }
  }

  lemma InsideIs(path: Bytes, p: nat, lead: Bytes)
    requires p <= |path| && lead != []
    ensures RoutineAt(path, p, lead) == RemoveDots([SLASH] + path[p..], lead[..|lead| - 1])
  {
    hide RemoveDots;
  }

  /** One segment at the start of a path without a leading slash. */
  lemma SegmentFirst(path: Bytes, p: nat)
    requires p < |path|
    ensures var e := SegmentEnd(path, p);
      var segment := path[p..e];
      RoutineAt(path, p, []) ==
      if segment == DOT_DOT || segment == DOT then RoutineAfter(path, e, [])
      else RoutineAfter(path, e, segment + if e < |path| then [SLASH] else [])
  {
    var e := SegmentEnd(path, p);
    var segment, tail := path[p..e], path[e..];
    assert path[p..] == segment + tail;
    if segment == DOT_DOT || segment == DOT {
      FirstDots(segment, tail);
      hide RemoveDots;
      if e < |path| { assert tail[1..] == path[e + 1..]; }
    } else if segment == [] {
      hide RemoveDots;
      assert [SLASH] + path[p + 1..] == path[p..];
    } else {
      FirstOther(segment, tail);
      hide RemoveDots;
      AfterSegment(path, e, segment);
    }
  }

  lemma FirstDots(segment: Bytes, tail: Bytes)
    requires (segment == DOT_DOT || segment == DOT) && (tail != [] ==> tail[0] == SLASH)
    ensures RemoveDots(segment + tail, []) == if tail == [] then [] else RemoveDots(tail[1..], [])
  {
    var input := segment + tail;
    assert input[0] == POINT;
    if tail == [] {
      assert input == segment;
    } else {
      assert input[|segment|] == SLASH && input[|segment| + 1..] == tail[1..];
      assert segment + [SLASH] <= input;
      if segment == DOT { assert !(DOT_DOT + [SLASH] <= input) by { assert input[1] == SLASH; } }
    }
    hide DropLast, SegmentEnd;
  }

  lemma FirstOther(segment: Bytes, tail: Bytes)
    requires IsSegment(segment) && segment != [] && segment != DOT && segment != DOT_DOT && (tail != [] ==> tail[0] == SLASH)
    ensures RemoveDots(segment + tail, []) == RemoveDots(tail, segment)
  {
    var input := segment + tail;
    EndsAt(input, 1, |segment|);
    NoDotsFirst(segment, tail);
    hide DropLast, SegmentEnd, IsSegment;
    assert input[..|segment|] == segment && input[|segment|..] == tail && [] + segment == segment;
  }

  lemma {:induction false} EndsAt(s: Bytes, p: nat, e: nat)
    requires p <= e <= |s| && (forall i | p <= i < e :: s[i] != SLASH) && (e < |s| ==> s[e] == SLASH)
    ensures SegmentEnd(s, p) == e
    decreases e - p
  {
    if p < e { EndsAt(s, p + 1, e); }
  }

  lemma NoDotsFirst(segment: Bytes, tail: Bytes)
    requires IsSegment(segment) && segment != [] && segment != DOT && segment != DOT_DOT && (tail != [] ==> tail[0] == SLASH)
    ensures var input := segment + tail;
      && input != [] && input[0] != SLASH && !(DOT_DOT + [SLASH] <= input) && !(DOT + [SLASH] <= input)
      && input != DOT && input != DOT_DOT
  {
    var input := segment + tail;
    assert input[0] == segment[0];
    if |segment| == 1 && tail != [] { assert input[1] == SLASH; }
    if tail != [] { assert input[|segment|] == SLASH; }
    assert |segment| >= 2 ==> input[1] == segment[1];
    assert |segment| >= 3 ==> input[2] == segment[2];
  }

  /** Where backing up leaves the routine. */
  lemma BackedUpLead(kept: seq<Bytes>, lost: bool)
    requires AllSegments(kept) && Lead(kept, lost) != []
    ensures var lead := Lead(kept, lost);
      DropLast(lead[..|lead| - 1]) + [SLASH] ==
      if kept == [] then Lead([], true)
      else if kept == [[]] then Lead([[]], false)
      else if |kept| == 1 then Lead([], true)
      else Lead(kept[..|kept| - 1], lost)
  {
    var lead := Lead(kept, lost);
    DropNothing();
    if kept == [] {
      assert lead[..|lead| - 1] == [];
    } else {
      var n := |kept| - 1;
      var before := Lead(kept[..n], lost);
      assert lead == before + kept[n] + [SLASH];
      assert lead[..|lead| - 1] == before + kept[n];
      LeadEnds(kept[..n], lost);
      hide Slashed, DropLast;
      if before == [] {
        DropOnly(kept[n]);
        assert before + kept[n] == kept[n];
        OneSlashed([]);
      } else {
        var x := before[..|before| - 1];
        assert x + [SLASH] == before;
        DropSegment(x, kept[n]);
        if n == 0 { NoneSlashed(); OneSlashed([]); }
      }
    }
  }

  lemma NoneSlashed()
    ensures Slashed([]) == []
  {
  }

  lemma OneSlashed(segment: Bytes)
    ensures Slashed([segment]) == segment + [SLASH]
  {
    assert [segment][..0] == [];
  }

  lemma {:induction false} DropOnly(segment: Bytes)
    requires IsSegment(segment)
    ensures DropLast(segment) == []
    decreases |segment|
  {
    if segment != [] { DropOnly(segment[..|segment| - 1]); }
  }

  /** On every path, from every point of the loop, the routine gives what the loop leaves,
      with a slash in front exactly where the loop has lost one. */
  lemma {:induction false} LoopIsRoutine(path: Bytes, p: nat, kept: seq<Bytes>, lost: bool)
    requires p <= |path| && AllSegments(kept)
    ensures RoutineAt(path, p, Lead(kept, lost)) ==
            (if SlashLost(path, p, |kept|, EmptyFirst(kept), lost) then [SLASH] else []) + Tidied(path, p, kept)
    decreases |path| - p, 3
  {
    var lead := Lead(kept, lost);
    LeadEnds(kept, lost);
    if p == |path| {
      RoutineEnds(path, lead);
    } else {
      var e := SegmentEnd(path, p);
      var segment := path[p..e];
      assert IsSegment(segment);
      hide *;
      if lead == [] { SegmentFirst(path, p); } else { SegmentInside(path, p, lead); }
      if segment == DOT_DOT {
        DotDotOn(path, p, kept, lost);
      } else if segment == DOT {
        LoopAfter(path, e, kept, lost);
        DotIs(path, p, kept, lost);
      } else {
        OtherOn(path, p, kept, lost);
      }
    }
  }

  lemma RoutineEnds(path: Bytes, lead: Bytes)
    requires lead != [] ==> lead[|lead| - 1] == SLASH
    ensures RoutineAt(path, |path|, lead) == lead
  {
    assert path[|path|..] == [];
    if lead == [] {
      RemoveNothing([]);
    } else {
      assert [SLASH] + [] == [SLASH] && lead[..|lead| - 1] + [SLASH] == lead;
      hide RemoveDots;
      RemoveSlash(lead[..|lead| - 1]);
    }
  }

  /** The loop behind a segment that ended at `e` and kept `kept`. */
  lemma {:induction false} LoopAfter(path: Bytes, e: nat, kept: seq<Bytes>, lost: bool)
    requires e <= |path| && AllSegments(kept)
    ensures RoutineAfter(path, e, Lead(kept, lost)) ==
            (if SlashLost(path, e + 1, |kept|, EmptyFirst(kept), lost) then [SLASH] else []) + Tidied(path, e + 1, kept)
    decreases |path| - e, 1
  {
    hide RemoveDots, RoutineAt, Slashed;
    if e < |path| { LoopIsRoutine(path, e + 1, kept, lost); }
  }

  lemma DotIs(path: Bytes, p: nat, kept: seq<Bytes>, lost: bool)
    requires p < |path| && path[p..SegmentEnd(path, p)] == DOT
    ensures var e := SegmentEnd(path, p);
      && Tidied(path, p, kept) == Tidied(path, e + 1, kept)
      && SlashLost(path, p, |kept|, EmptyFirst(kept), lost) == SlashLost(path, e + 1, |kept|, EmptyFirst(kept), lost)
  {
  }

  lemma {:induction false} DotDotOn(path: Bytes, p: nat, kept: seq<Bytes>, lost: bool)
    requires p < |path| && path[p..SegmentEnd(path, p)] == DOT_DOT && AllSegments(kept)
    requires var lead := Lead(kept, lost);
      RoutineAt(path, p, lead)
        == RoutineAfter(path, SegmentEnd(path, p), if lead == [] then [] else DropLast(lead[..|lead| - 1]) + [SLASH])
    ensures RoutineAt(path, p, Lead(kept, lost)) ==
            (if SlashLost(path, p, |kept|, EmptyFirst(kept), lost) then [SLASH] else []) + Tidied(path, p, kept)
    decreases |path| - p, 2
  {
    var e := SegmentEnd(path, p);
    LeadEnds(kept, lost);
    DotDotIs(path, p, kept, lost);
    if Lead(kept, lost) != [] { BackedUpLead(kept, lost); }
    hide *;
    if kept == [] {
      LoopAfter(path, e, [], lost);
    } else if kept == [[]] {
      LoopAfter(path, e, [[]], false);
    } else if |kept| == 1 {
      LoopAfter(path, e, [], true);
    } else {
      FewerSegments(kept);
      LoopAfter(path, e, kept[..|kept| - 1], lost);
    }
  }

  lemma FewerSegments(kept: seq<Bytes>)
    requires AllSegments(kept) && kept != []
    ensures AllSegments(kept[..|kept| - 1]) && AllSegments([[]]) && AllSegments([])
    ensures |kept| > 1 ==> EmptyFirst(kept[..|kept| - 1]) == EmptyFirst(kept)
  {
  }

  /** What `..` does to the loop and to the missing slash. */
  lemma DotDotIs(path: Bytes, p: nat, kept: seq<Bytes>, lost: bool)
    requires p < |path| && path[p..SegmentEnd(path, p)] == DOT_DOT && AllSegments(kept)
    ensures AllSegments([[]]) && AllSegments([])
    ensures Lead([], false) == [] && Lead([], true) == [SLASH]
    ensures var e := SegmentEnd(path, p);
      var now := BackedUp(kept);
      var missing := if kept == [[]] then false else if |kept| == 1 then true else lost;
      && now == (if kept == [] then [] else if kept == [[]] then [[]] else if |kept| == 1 then [] else kept[..|kept| - 1])
      && Tidied(path, p, kept) == Tidied(path, e + 1, now)
      && SlashLost(path, p, |kept|, EmptyFirst(kept), lost) == SlashLost(path, e + 1, |now|, EmptyFirst(now), missing)
  {
    hide Slashed;
    NoneSlashed();
    if |kept| == 1 { assert kept == [kept[0]]; }
    EmptyDoesNotMatter(path, SegmentEnd(path, p) + 1, EmptyFirst(kept), false, lost);
  }

  /** With nothing standing, the flag for the first segment is not looked at. */
  lemma {:induction false} EmptyDoesNotMatter(path: Bytes, p: nat, a: bool, b: bool, lost: bool)
    ensures SlashLost(path, p, 0, a, lost) == SlashLost(path, p, 0, b, lost)
    decreases |path| - p
  {
    if p < |path| { EmptyDoesNotMatter(path, SegmentEnd(path, p) + 1, a, b, lost); }
  }

  lemma {:induction false} OtherOn(path: Bytes, p: nat, kept: seq<Bytes>, lost: bool)
    requires p < |path| && AllSegments(kept)
    requires var e := SegmentEnd(path, p);
      var segment := path[p..e];
      IsSegment(segment) && segment != DOT && segment != DOT_DOT
      && RoutineAt(path, p, Lead(kept, lost)) ==
         RoutineAfter(path, e, (if Lead(kept, lost) == [] then segment else Lead(kept, lost) + segment) + if e < |path| then [SLASH] else [])
    ensures RoutineAt(path, p, Lead(kept, lost)) ==
            (if SlashLost(path, p, |kept|, EmptyFirst(kept), lost) then [SLASH] else []) + Tidied(path, p, kept)
    decreases |path| - p, 2
  {
    var e := SegmentEnd(path, p);
    var segment := path[p..e];
    OtherIs(path, p, kept, lost);
    hide *;
    if e < |path| { LoopAfter(path, e, kept + [segment], lost); }
  }

  lemma OtherIs(path: Bytes, p: nat, kept: seq<Bytes>, lost: bool)
    requires p < |path| && AllSegments(kept)
    requires var segment := path[p..SegmentEnd(path, p)]; IsSegment(segment) && segment != DOT && segment != DOT_DOT
    ensures var e := SegmentEnd(path, p);
      var segment, lead := path[p..e], Lead(kept, lost);
      var more := if lead == [] then segment else lead + segment;
      && (e < |path| ==>
            && AllSegments(kept + [segment]) && more + [SLASH] == Lead(kept + [segment], lost)
            && Tidied(path, p, kept) == Tidied(path, e + 1, kept + [segment])
            && SlashLost(path, p, |kept|, EmptyFirst(kept), lost)
               == SlashLost(path, e + 1, |kept + [segment]|, EmptyFirst(kept + [segment]), lost))
      && (e == |path| ==>
            RoutineAfter(path, e, more + []) ==
            (if SlashLost(path, p, |kept|, EmptyFirst(kept), lost) then [SLASH] else []) + Tidied(path, p, kept))
  {
    var e := SegmentEnd(path, p);
    var segment := path[p..e];
    hide *;
    LeadGrows(kept, segment, lost);
    OtherSlash(path, p, kept, lost);
    TidiedStep(path, p, kept);
    LastIs(path, kept, segment, lost);
  }

  lemma LeadGrows(kept: seq<Bytes>, segment: Bytes, lost: bool)
    ensures var lead := Lead(kept, lost);
      (if lead == [] then segment else lead + segment) + [SLASH] == Lead(kept + [segment], lost)
  {
    assert (kept + [segment])[..|kept|] == kept;
    assert Slashed(kept + [segment]) == Slashed(kept) + segment + [SLASH];
    hide Slashed;
  }

  lemma OtherSlash(path: Bytes, p: nat, kept: seq<Bytes>, lost: bool)
    requires p < |path|
    requires var segment := path[p..SegmentEnd(path, p)]; segment != DOT && segment != DOT_DOT
    ensures var e := SegmentEnd(path, p);
      var segment := path[p..e];
      SlashLost(path, p, |kept|, EmptyFirst(kept), lost)
        == SlashLost(path, e + 1, |kept + [segment]|, EmptyFirst(kept + [segment]), lost)
    ensures SegmentEnd(path, p) == |path| ==> SlashLost(path, p, |kept|, EmptyFirst(kept), lost) == lost
  {
    LostStep(path, p, |kept|, EmptyFirst(kept), lost);
    if SegmentEnd(path, p) == |path| { NothingMore(path, |path| + 1, [], |kept| + 1, EmptyFirst(kept + [path[p..]]), lost); }
    hide SlashLost, SegmentEnd;
  }

  /** A last segment without a slash behind it. */
  lemma LastIs(path: Bytes, kept: seq<Bytes>, segment: Bytes, lost: bool)
    ensures var lead := Lead(kept, lost);
      RoutineAfter(path, |path|, (if lead == [] then segment else lead + segment) + [])
        == (if lost then [SLASH] else []) + (Slashed(kept) + segment)
  {
    hide Slashed;
  }

  /** For every path, what the loop leaves is what the routine gives, but for a lost slash. */
  lemma LoopAndRoutine(path: Bytes)
    ensures RemoveDots(path, []) == (if SlashLost(path, 0, 0, false, false) then [SLASH] else []) + Tidied(path, 0, [])
  {
    hide RemoveDots;
    LoopIsRoutine(path, 0, [], false);
    assert path[0..] == path;
    NoneSlashed();
  }

  /** They agree exactly when no slash is lost. */
  lemma AgreesExactly(path: Bytes)
    ensures Tidied(path, 0, []) == RemoveDots(path, []) <==> !SlashLost(path, 0, 0, false, false)
  {
    LoopAndRoutine(path);
    hide RemoveDots, Tidied;
  }

  /** A path that begins with a slash never loses it. */
  lemma SlashFirstKept(path: Bytes)
    requires path != [] ==> path[0] == SLASH
    ensures !SlashLost(path, 0, 0, false, false)
  {
    if path != [] {
      EndsAt(path, 0, 0);
      assert path[0..0] == [];
      StandsForGood(path, 1, 1);
    }
  }

  lemma {:induction false} StandsForGood(path: Bytes, p: nat, standing: nat)
    requires standing > 0
    ensures !SlashLost(path, p, standing, true, false)
    decreases |path| - p
  {
    if p < |path| {
      var e := SegmentEnd(path, p);
      LostStep(path, p, standing, true, false);
      hide SlashLost, SegmentEnd;
      StandsForGood(path, e + 1, standing);
      StandsForGood(path, e + 1, standing + 1);
      if standing > 1 { StandsForGood(path, e + 1, standing - 1); }
    }
  }

  predicate Ordinary(segment: Bytes) {
    IsSegment(segment) && segment != [] && segment != DOT && segment != DOT_DOT
  }

  lemma SegmentAt(path: Bytes, before: Bytes, segment: Bytes, after: Bytes)
    requires path == before + segment + after && IsSegment(segment) && (after != [] ==> after[0] == SLASH)
    ensures var p, e := |before|, |before| + |segment|;
      && p <= e <= |path| && path[p..e] == segment && (forall i | p <= i < e :: path[i] != SLASH)
      && (e < |path| <==> after != []) && (e < |path| ==> path[e] == SLASH) && SegmentEnd(path, p) == e
  {
    var p, e := |before|, |before| + |segment|;
    forall i | p <= i < e ensures path[i] == segment[i - p] {}
    EndsAt(path, p, e);
  }

  /** On `a/../b` the loop leaves `b`, and the routine gives `/b`. */
  lemma RelativePathDiffers(a: Bytes, b: Bytes)
    requires Ordinary(a) && Ordinary(b)
    ensures var path := a + [SLASH] + DOT_DOT + [SLASH] + b;
      Tidied(path, 0, []) == b && RemoveDots(path, []) == [SLASH] + b
  {
    var path := a + [SLASH] + DOT_DOT + [SLASH] + b;
    var p := |a| + 1;
    assert path == [] + a + ([SLASH] + DOT_DOT + [SLASH] + b);
    assert path == (a + [SLASH]) + DOT_DOT + ([SLASH] + b);
    assert path == (a + [SLASH] + DOT_DOT + [SLASH]) + b + [];
    SegmentAt(path, [], a, [SLASH] + DOT_DOT + [SLASH] + b);
    SegmentAt(path, a + [SLASH], DOT_DOT, [SLASH] + b);
    SegmentAt(path, a + [SLASH] + DOT_DOT + [SLASH], b, []);
    UpOnce(path, p, a, b);
    hide Tidied, SlashLost, RemoveDots;
    LoopAndRoutine(path);
  }

  /** Where the segments of `a/../b` are. */
  ghost predicate IsUpOnce(path: Bytes, p: nat, a: Bytes, b: Bytes) {
    && Ordinary(a) && Ordinary(b) && p == |a| + 1 && |path| == p + 3 + |b|
    && path[0..|a|] == a && SegmentEnd(path, 0) == |a| && path[p..p + 2] == DOT_DOT && SegmentEnd(path, p) == p + 2
    && path[p + 3..|path|] == b && SegmentEnd(path, p + 3) == |path|
  }

  lemma UpOnce(path: Bytes, p: nat, a: Bytes, b: Bytes)
    requires IsUpOnce(path, p, a, b)
    ensures Tidied(path, 0, []) == b && SlashLost(path, 0, 0, false, false)
  {
    hide *;
    UpOnceTidied(path, p, a, b);
    UpOnceLost(path, p, a, b);
  }

  lemma UpOnceTidied(path: Bytes, p: nat, a: Bytes, b: Bytes)
    requires IsUpOnce(path, p, a, b)
    ensures Tidied(path, 0, []) == b
  {
    hide *;
    UpOnceIs(path, p, a, b);
    FirstGone(a);
    var first: seq<Bytes> := [a];
    assert [] + first == first && [] + b == b;
    TidiedOther(path, 0, []);
    TidiedUp(path, p, [a]);
    TidiedStep(path, p + 3, []);
    NoneSlashed();
  }

  lemma UpOnceIs(path: Bytes, p: nat, a: Bytes, b: Bytes)
    requires IsUpOnce(path, p, a, b)
    ensures p == |a| + 1 && |path| == p + 3 + |b| && path[0..|a|] == a && path[p..p + 2] == DOT_DOT
    ensures SegmentEnd(path, 0) == |a| && SegmentEnd(path, p) == p + 2 && SegmentEnd(path, p + 3) == |path|
    ensures Ordinary(a) && b != [] && b != DOT && b != DOT_DOT && path[p + 3..SegmentEnd(path, p + 3)] == b
  {
    hide SegmentEnd;
  }

  lemma UpOnceLost(path: Bytes, p: nat, a: Bytes, b: Bytes)
    requires IsUpOnce(path, p, a, b)
    ensures SlashLost(path, 0, 0, false, false)
  {
    hide SlashLost, SegmentEnd, IsSegment;
    LostStep(path, 0, 0, false, false);
    LostStep(path, p, 1, false, false);
    LostStep(path, p + 3, 0, false, true);
    NothingMore(path, |path| + 1, [], 1, false, true);
  }

  lemma LostStep(path: Bytes, p: nat, standing: nat, emptyFirst: bool, lost: bool)
    requires p < |path|
    ensures var e := SegmentEnd(path, p);
      SlashLost(path, p, standing, emptyFirst, lost) ==
      if path[p..e] == DOT_DOT then
        if standing == 0 then SlashLost(path, e + 1, 0, emptyFirst, lost)
        else if standing == 1 then SlashLost(path, e + 1, if emptyFirst then 1 else 0, emptyFirst, !emptyFirst)
        else SlashLost(path, e + 1, standing - 1, emptyFirst, lost)
      else if path[p..e] == DOT then SlashLost(path, e + 1, standing, emptyFirst, lost)
      else SlashLost(path, e + 1, standing + 1, if standing == 0 then path[p..e] == [] else emptyFirst, lost)
  {
    hide SegmentEnd;
  }

  lemma NothingMore(path: Bytes, p: nat, kept: seq<Bytes>, standing: nat, emptyFirst: bool, lost: bool)
    requires p >= |path|
    ensures SlashLost(path, p, standing, emptyFirst, lost) == lost && Tidied(path, p, kept) == Slashed(kept)
  {
  }

  const UP_UP: Bytes := [SLASH, POINT, POINT, SLASH, SLASH, POINT, POINT, SLASH]

  /** On `a/..//../b` both give `/b`: the slash that was lost is made up for. */
  lemma LostSlashMadeUpFor(a: Bytes, b: Bytes)
    requires Ordinary(a) && Ordinary(b)
    ensures Tidied(a + UP_UP + b, 0, []) == [SLASH] + b == RemoveDots(a + UP_UP + b, [])
  {
    var path := a + UP_UP + b;
    UpTwice(path, a, b);
    hide *;
    UpTwiceTidied(path, |a| + 1, a, b);
    UpTwiceLost(path, |a| + 1, a, b);
    LoopAndRoutine(path);
    assert [] + ([SLASH] + b) == [SLASH] + b;
  }

  lemma UpTwice(path: Bytes, a: Bytes, b: Bytes)
    requires Ordinary(a) && Ordinary(b) && path == a + UP_UP + b
    ensures IsUpTwice(path, |a| + 1, a, b)
  {
    var n := |a|;
    assert path[..n] == a == path[0..n] && path[n..n + 8] == UP_UP && path[n + 8..] == b == path[n + 8..|path|];
    hide UP_UP;
    UpUpBytes(path, n);
    UpTwiceEnds(path, n, a, b);
    hide SegmentEnd, IsSegment;
    assert path[n + 1..n + 3] == DOT_DOT && path[n + 5..n + 7] == DOT_DOT;
  }

  lemma UpUpBytes(path: Bytes, n: nat)
    requires n + 8 <= |path| && path[n..n + 8] == UP_UP
    ensures path[n] == SLASH && path[n + 3] == SLASH && path[n + 4] == SLASH && path[n + 7] == SLASH
    ensures path[n + 1] == path[n + 2] == path[n + 5] == path[n + 6] == POINT
  {
    var t := path[n..n + 8];
    assert path[n] == t[0] && path[n + 1] == t[1] && path[n + 2] == t[2] && path[n + 3] == t[3];
    assert path[n + 4] == t[4] && path[n + 5] == t[5] && path[n + 6] == t[6] && path[n + 7] == t[7];
  }

  lemma UpTwiceEnds(path: Bytes, n: nat, a: Bytes, b: Bytes)
    requires IsSegment(a) && IsSegment(b) && n + 8 <= |path| && path[..n] == a && path[n + 8..] == b
    requires path[n] == SLASH && path[n + 3] == SLASH && path[n + 4] == SLASH && path[n + 7] == SLASH
    requires path[n + 1] == path[n + 2] == path[n + 5] == path[n + 6] == POINT
    ensures SegmentEnd(path, 0) == n && SegmentEnd(path, n + 1) == n + 3 && SegmentEnd(path, n + 4) == n + 4
    ensures SegmentEnd(path, n + 5) == n + 7 && SegmentEnd(path, n + 8) == |path|
  {
    assert forall i | 0 <= i < n :: path[i] == path[..n][i];
    assert forall i | n + 8 <= i < |path| :: path[i] == path[n + 8..][i - n - 8];
    EndsAt(path, 0, n);
    EndsAt(path, n + 1, n + 3);
    EndsAt(path, n + 4, n + 4);
    EndsAt(path, n + 5, n + 7);
    EndsAt(path, n + 8, |path|);
  }

  /** Where the segments of `a/..//../b` are. */
  ghost predicate IsUpTwice(path: Bytes, p: nat, a: Bytes, b: Bytes) {
    && Ordinary(a) && Ordinary(b) && p == |a| + 1 && |path| == p + 7 + |b|
    && path[0..|a|] == a && SegmentEnd(path, 0) == |a| && path[p..p + 2] == DOT_DOT && SegmentEnd(path, p) == p + 2
    && SegmentEnd(path, p + 3) == p + 3 && path[p + 4..p + 6] == DOT_DOT && SegmentEnd(path, p + 4) == p + 6
    && path[p + 7..|path|] == b && SegmentEnd(path, p + 7) == |path|
  }

  lemma UpTwiceTidied(path: Bytes, p: nat, a: Bytes, b: Bytes)
    requires IsUpTwice(path, p, a, b)
    ensures Tidied(path, 0, []) == [SLASH] + b
  {
    UpFirstTidied(path, p, a, b);
    var empty: Bytes := [];
    OneSlashed(empty);
    assert AllSegments([empty]) && BackedUp([empty]) == [empty] && empty + [SLASH] == [SLASH];
    hide Tidied, SegmentEnd, Slashed, AllSegments, IsSegment, BackedUp;
    TidiedStep(path, p + 4, [empty]);
    TidiedStep(path, p + 7, [empty]);
  }

  lemma UpFirstTidied(path: Bytes, p: nat, a: Bytes, b: Bytes)
    requires IsUpTwice(path, p, a, b)
    ensures Tidied(path, 0, []) == Tidied(path, p + 4, [[]])
  {
    hide *;
    UpTwiceIs(path, p, a, b);
    FirstGone(a);
    assert path[p + 3..p + 3] == [];
    var first: seq<Bytes>, none: seq<Bytes> := [a], [[]];
    assert [] + first == first && [] + none == none;
    TidiedOther(path, 0, []);
    TidiedUp(path, p, [a]);
    TidiedOther(path, p + 3, []);
  }

  lemma UpTwiceIs(path: Bytes, p: nat, a: Bytes, b: Bytes)
    requires IsUpTwice(path, p, a, b)
    ensures p == |a| + 1 && |path| == p + 7 + |b| && path[0..|a|] == a && path[p..p + 2] == DOT_DOT
    ensures SegmentEnd(path, 0) == |a| && SegmentEnd(path, p) == p + 2 && SegmentEnd(path, p + 3) == p + 3
    ensures Ordinary(a)
  {
    hide SegmentEnd;
  }

  lemma FirstGone(a: Bytes)
    requires Ordinary(a)
    ensures AllSegments([]) && AllSegments([a]) && BackedUp([a]) == [] && a != DOT && a != DOT_DOT && [] != DOT && [] != DOT_DOT
  {
  }

  lemma TidiedOther(path: Bytes, p: nat, kept: seq<Bytes>)
    requires p < |path| && AllSegments(kept) && SegmentEnd(path, p) < |path|
    requires path[p..SegmentEnd(path, p)] != DOT && path[p..SegmentEnd(path, p)] != DOT_DOT
    ensures Tidied(path, p, kept) == Tidied(path, SegmentEnd(path, p) + 1, kept + [path[p..SegmentEnd(path, p)]])
  {
    hide *;
    TidiedStep(path, p, kept);
  }

  lemma TidiedUp(path: Bytes, p: nat, kept: seq<Bytes>)
    requires p < |path| && AllSegments(kept) && SegmentEnd(path, p) < |path| && path[p..SegmentEnd(path, p)] == DOT_DOT
    ensures Tidied(path, p, kept) == Tidied(path, SegmentEnd(path, p) + 1, BackedUp(kept))
  {
    hide *;
    TidiedStep(path, p, kept);
  }

  lemma UpTwiceLost(path: Bytes, p: nat, a: Bytes, b: Bytes)
    requires IsUpTwice(path, p, a, b)
    ensures !SlashLost(path, 0, 0, false, false)
  {
    hide SlashLost, SegmentEnd, IsSegment;
    assert path[p + 3..p + 3] == [];
    LostStep(path, 0, 0, false, false);
    LostStep(path, p, 1, false, false);
    LostStep(path, p + 3, 0, false, true);
    LostStep(path, p + 4, 1, true, true);
    LostStep(path, p + 7, 1, true, false);
    NothingMore(path, |path| + 1, [], 2, true, false);
  }

  // ----- in place -----

  /** Backing up to the last slash but one. */
  method BackUp(path_: array<Byte>, newpos: nat, ghost kept: seq<Bytes>) returns (r: nat)
    requires newpos <= path_.Length && path_[..newpos] == Slashed(kept) && AllSegments(kept)
    ensures r <= newpos && path_[..r] == Slashed(BackedUp(kept))
  {
    var lastslashpos := newpos;
    ShortSlashed(kept);
    if lastslashpos > 1 {
      ghost var before := Slashed(kept[..|kept| - 1]);
      LastSlashed(kept, path_[..], newpos);
      lastslashpos := lastslashpos - 1;
      while lastslashpos > 0
        invariant |before| <= lastslashpos < newpos
        decreases lastslashpos
      {
        if path_[lastslashpos - 1] == SLASH { break; }
        lastslashpos := lastslashpos - 1;
      }
      assert path_[..newpos][..|before|] == before;
    }
    r := lastslashpos;
  }

  lemma ShortSlashed(kept: seq<Bytes>)
    ensures |Slashed(kept)| <= 1 <==> kept == [] || kept == [[]]
    ensures kept != [] ==> Slashed(kept) == Slashed(kept[..|kept| - 1]) + kept[|kept| - 1] + [SLASH]
  {
    if kept != [] && |kept| > 1 { assert Slashed(kept[..|kept| - 1]) != []; }
    if |kept| == 1 { assert kept == [kept[0]]; }
  }

  /** Where the slashes of the last segment kept are. */
  lemma LastSlashed(kept: seq<Bytes>, text: Bytes, newpos: nat)
    requires kept != [] && AllSegments(kept) && newpos <= |text| && text[..newpos] == Slashed(kept)
    ensures var n := |Slashed(kept[..|kept| - 1])|;
      && n < newpos && (n > 0 ==> text[n - 1] == SLASH) && forall i | n <= i < newpos - 1 :: text[i] != SLASH
  {
    var before, last := Slashed(kept[..|kept| - 1]), kept[|kept| - 1];
    LeadEnds(kept[..|kept| - 1], false);
    assert text[..newpos] == before + last + [SLASH];
    assert IsSegment(last);
    hide Slashed;
    forall i | |before| <= i < newpos - 1 ensures text[i] != SLASH { assert text[..newpos][i] == last[i - |before|]; }
    if before != [] { assert text[..newpos][|before| - 1] == before[|before| - 1]; }
  }

  /** `RemoveDotSegments`: the path, of length `pathlen` and zero-terminated, is rewritten in
      its own buffer, and never ahead of what has been read. */
  method RemoveDotSegments(path_: array<Byte>, pathlen: nat) returns (newpos: nat)
    requires pathlen < path_.Length
    modifies path_
    ensures newpos <= pathlen && path_[newpos] == 0
    ensures path_[..newpos] == Tidied(old(path_[..pathlen]), 0, [])
    ensures path_[..newpos] == RemoveDots(old(path_[..pathlen]), []) <==> !SlashLost(old(path_[..pathlen]), 0, 0, false, false)
  {
    ghost var path := path_[..pathlen];
    ghost var kept: seq<Bytes> := [];
    var pathpos := 0;
    newpos := 0;
    NoneSlashed();
    hide RemoveDots, Tidied, Slashed, SlashLost;
    while pathpos < pathlen
      invariant newpos <= pathlen && (pathpos <= pathlen ==> newpos <= pathpos)
      invariant AllSegments(kept) && (pathpos <= pathlen ==> path_[..newpos] == Slashed(kept))
      invariant pathpos <= pathlen ==> Tidied(path, pathpos, kept) == Tidied(path, 0, [])
      invariant forall i | pathpos <= i < pathlen :: path_[i] == path[i]
      invariant pathpos > pathlen ==> path_[..newpos] == Tidied(path, 0, [])
      decreases pathlen - pathpos
    {
      newpos, pathpos, kept := OneSegment(path_, pathlen, pathpos, newpos, path, kept);
    }
    TidiedEnds(path, kept);
    ghost var text := path_[..newpos];
    path_[newpos] := 0;
    assert path_[..newpos] == text;
    AgreesExactly(path);
  }

  lemma TidiedEnds(path: Bytes, kept: seq<Bytes>)
    ensures Tidied(path, |path|, kept) == Slashed(kept)
  {
  }

  /** One turn of the loop. */
  method OneSegment(path_: array<Byte>, pathlen: nat, pathpos: nat, newpos: nat, ghost path: Bytes, ghost kept: seq<Bytes>)
    returns (n: nat, p: nat, ghost now: seq<Bytes>)
    requires newpos <= pathpos < pathlen == |path| < path_.Length && AllSegments(kept) && path_[..newpos] == Slashed(kept)
    requires forall i | pathpos <= i < pathlen :: path_[i] == path[i]
    modifies path_
    ensures p > pathpos && n <= pathlen && (p <= pathlen ==> n <= p)
    ensures AllSegments(now) && (p <= pathlen ==> path_[..n] == Slashed(now))
    ensures p <= pathlen ==> Tidied(path, p, now) == Tidied(path, pathpos, kept)
    ensures forall i | p <= i < pathlen :: path_[i] == path[i]
    ensures p > pathlen ==> path_[..n] == Tidied(path, pathpos, kept)
  {
    hide Tidied, Slashed;
    var slashpos := 0;
    while pathpos + slashpos < pathlen
      invariant pathpos + slashpos <= pathlen && SegmentEnd(path, pathpos + slashpos) == SegmentEnd(path, pathpos)
    {
      if path_[pathpos + slashpos] == SLASH { break; }
      slashpos := slashpos + 1;
    }
    ghost var end := pathpos + slashpos;
    ghost var segment := path[pathpos..end];
    assert end == SegmentEnd(path, pathpos);
    TidiedStep(path, pathpos, kept);
    p := pathpos + slashpos + 1;
    if slashpos == 2 && path_[pathpos] == POINT && path_[pathpos + 1] == POINT {
      assert segment == DOT_DOT;
      n := BackUp(path_, newpos, kept);
      now := BackedUp(kept);
    } else if slashpos == 1 && path_[pathpos] == POINT {
      assert segment == DOT;
      n := newpos;
      now := kept;
    } else {
      assert segment != DOT && segment != DOT_DOT;
      n := MoveSegment(path_, pathlen, pathpos, newpos, slashpos);
      now := kept + [segment];
    }
  }

  /** One turn, as `Tidied` takes it. */
  lemma TidiedStep(path: Bytes, p: nat, kept: seq<Bytes>)
    requires p < |path| && AllSegments(kept)
    ensures var e := SegmentEnd(path, p);
      var segment := path[p..e];
      && AllSegments(BackedUp(kept)) && AllSegments(kept + [segment])
      && (segment == DOT_DOT ==>
            Tidied(path, p, kept) == if e < |path| then Tidied(path, e + 1, BackedUp(kept)) else Slashed(BackedUp(kept)))
      && (segment == DOT ==> Tidied(path, p, kept) == if e < |path| then Tidied(path, e + 1, kept) else Slashed(kept))
      && (segment != DOT && segment != DOT_DOT ==>
            Tidied(path, p, kept) == if e < |path| then Tidied(path, e + 1, kept + [segment]) else Slashed(kept) + segment)
      && Slashed(kept + [segment]) == Slashed(kept) + segment + [SLASH]
  {
    assert (kept + [path[p..SegmentEnd(path, p)]])[..|kept|] == kept;
    hide SegmentEnd;
  }

  /** A segment moved down to `newpos`, with its slash if it has one. */
  method MoveSegment(path_: array<Byte>, pathlen: nat, pathpos: nat, newpos: nat, slashpos: nat) returns (n: nat)
    requires newpos <= pathpos && pathpos + slashpos <= pathlen < path_.Length
    modifies path_
    ensures n == newpos + slashpos + (if pathpos + slashpos < pathlen then 1 else 0)
    ensures path_[..n] == old(path_[..newpos] + path_[pathpos..pathpos + slashpos])
                          + (if pathpos + slashpos < pathlen then [SLASH] else [])
    ensures forall i | n <= i < path_.Length && pathpos + slashpos < i :: path_[i] == old(path_[i])
  {
    forall i | newpos <= i < newpos + slashpos { path_[i] := path_[i - newpos + pathpos]; }
    n := newpos + slashpos;
    assert path_[..n] == old(path_[..newpos] + path_[pathpos..pathpos + slashpos]);
    if pathpos + slashpos < pathlen {
      path_[n] := SLASH;
      n := n + 1;
    }
  }
}
