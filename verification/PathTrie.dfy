/** The path trie against plain template matching: nodes are addressed by the fragments
    that lead to them. */
module PathTries {
  import opened Common


  type Fragment = Bytes

  // ----- fragments of a path -----

  /** `Seek`: the first `c` from `p` on, or the end. */
  function SeekFrom(s: Bytes, p: nat, end: nat, c: Byte): (q: nat)
    requires p <= end <= |s|
    ensures p <= q <= end && (q < end ==> s[q] == c) && forall i | p <= i < q :: s[i] != c
    decreases end - p
  {
    if p < end && s[p] != c then SeekFrom(s, p + 1, end, c) else p
  }

  method Seek(s: Bytes, beg: nat, end: nat, c: Byte) returns (q: nat)
    requires beg <= end <= |s|
    ensures q == SeekFrom(s, beg, end, c)
  {
    q := beg;
    while q < end && s[q] != c
      invariant beg <= q <= end && SeekFrom(s, q, end, c) == SeekFrom(s, beg, end, c)
    {
      q := q + 1;
    }
  }

  /** Where a fragment begins and ends. */
  datatype Range = Range(beg: nat, end: nat)

  /** The fragments from `p` on; a slash at the very end starts none. */
  function RangesFrom(s: Bytes, p: nat): (rs: seq<Range>)
    ensures forall k | 0 <= k < |rs| :: p <= rs[k].beg <= rs[k].end <= |s|
    decreases |s| - p
  {
    if p >= |s| then []
    else
      var e := SeekFrom(s, p, |s|, SLASH);
      [Range(p, e)] + RangesFrom(s, e + 1)
  }

  function Slice(s: Bytes, r: Range): Fragment {
    if r.beg <= r.end <= |s| then s[r.beg..r.end] else []
  }

  function Slices(s: Bytes, rs: seq<Range>): (fs: seq<Fragment>)
    ensures |fs| == |rs| && forall k | 0 <= k < |fs| :: fs[k] == Slice(s, rs[k])
  {
    if rs == [] then [] else [Slice(s, rs[0])] + Slices(s, rs[1..])
  }

  function Fragments(s: Bytes): seq<Fragment> {
    Slices(s, RangesFrom(s, 0))
  }

  predicate IsParam(f: Fragment) {
    f != [] && f[0] == OPEN_BRACE
  }

  /** Fragments with slashes between them. */
  function Joined(fs: seq<Fragment>): Bytes {
    if fs == [] then [] else if |fs| == 1 then fs[0] else Joined(fs[..|fs| - 1]) + [SLASH] + fs[|fs| - 1]
  }

  // ----- the trie -----

  /** The fields of a node besides its children. */
  datatype Fields = Fields(dir: Fragment, is_param: bool, frag_idx: nat)

  /** The node the fragments lead to. Its children are the nodes one fragment further. */
  type Trie = map<seq<Fragment>, Fields>

  const EMPTY: Trie := map[[] := Fields([], false, 0)]

  function InsertFrom(t: Trie, at: seq<Fragment>, fs: seq<Fragment>): Trie
    requires at in t
    decreases |fs|
  {
    if fs == [] then t
    else
      InsertFrom(Descend(t, at, fs[0]), at + [fs[0]], fs[1..])
  }

  /** The trie after inserting paths in order. */
  function Inserted(paths: seq<Bytes>): (t: Trie)
    ensures [] in t
    decreases |paths|
  {
    if paths == [] then EMPTY
    else
      var t := Inserted(paths[..|paths| - 1]);
      InsertKeys(t, [], Fragments(paths[|paths| - 1]));
      InsertFrom(t, [], Fragments(paths[|paths| - 1]))
  }

  /** Inserting adds exactly the nodes on the way. */
  lemma {:induction false} InsertKeys(t: Trie, at: seq<Fragment>, fs: seq<Fragment>)
    requires at in t
    ensures forall p :: p in InsertFrom(t, at, fs) <==> p in t || (at <= p <= at + fs)
    decreases |fs|
  {
    if fs != [] {
      var next := at + [fs[0]];
      InsertKeys(Descend(t, at, fs[0]), next, fs[1..]);
      assert next + fs[1..] == at + fs;
      forall p
        ensures p in InsertFrom(t, at, fs) <==> p in t || (at <= p <= at + fs)
      {
        if at <= p <= at + fs && p != at { assert next <= p; }
        if next <= p { assert at <= p; }
      }
    } else {
      assert at + fs == at;
      forall p
        ensures p in InsertFrom(t, at, fs) <==> p in t || (at <= p <= at + fs)
      {
        if at <= p <= at + fs { assert p == at; }
      }
    }
  }

  /** The nodes are the prefixes of the inserted templates. */
  lemma {:induction false} KeysArePrefixes(paths: seq<Bytes>, p: seq<Fragment>)
    ensures p in Inserted(paths) <==> p == [] || exists i | 0 <= i < |paths| :: p <= Fragments(paths[i])
    decreases |paths|
  {
    if paths != [] {
      var n := |paths| - 1;
      KeysArePrefixes(paths[..n], p);
      InsertKeys(Inserted(paths[..n]), [], Fragments(paths[n]));
      assert [] + Fragments(paths[n]) == Fragments(paths[n]);
      assert forall i | 0 <= i < n :: paths[..n][i] == paths[i];
    }
  }

  /** What every insertion keeps of a node: it knows its depth and has its parent, and it
      is a parameter node exactly when it has a parameter child, whose name it remembers. */
  predicate KeptAt(t: Trie, p: seq<Fragment>)
    requires p in t
  {
    && t[p].frag_idx == |p|
    && (p != [] ==> Parent(p) in t)
    && (t[p].is_param ==> IsParam(t[p].dir) && p + [t[p].dir] in t)
    && (p != [] && IsParam(p[|p| - 1]) ==> Parent(p) in t && t[Parent(p)].is_param)
  }

  function Parent(p: seq<Fragment>): seq<Fragment>
    requires p != []
  {
    p[..|p| - 1]
  }

  predicate Kept(t: Trie) {
    forall p <- t :: KeptAt(t, p)
  }

  lemma ParentOfChild(at: seq<Fragment>, dir: Fragment)
    ensures Parent(at + [dir]) == at && (at + [dir])[|at|] == dir && |at + [dir]| == |at| + 1
  {
  }

  /** One fragment further, as `Insert` takes it. */
  function Descend(t: Trie, at: seq<Fragment>, dir: Fragment): (r: Trie)
    requires at in t
    ensures at + [dir] in r
  {
    var marked := if IsParam(dir) then t[at := t[at].(dir := dir, is_param := true)] else t;
    var next := at + [dir];
    if next in marked then marked else marked[next := Fields([], false, |next|)]
  }

  lemma InsertUnfolds(t: Trie, at: seq<Fragment>, fs: seq<Fragment>)
    requires at in t && fs != []
    ensures InsertFrom(t, at, fs) == InsertFrom(Descend(t, at, fs[0]), at + [fs[0]], fs[1..])
  {
    hide Descend;
  }

  lemma DescendKeeps(t: Trie, at: seq<Fragment>, dir: Fragment)
    requires Kept(t) && at in t
    ensures Kept(Descend(t, at, dir))
  {
    var r := Descend(t, at, dir);
    forall p <- r
      ensures KeptAt(r, p)
    {
      if p in t {
        assert KeptAt(t, p);
        ParentOfChild(at, dir);
        DescendKeepsOld(t, at, dir, p);
      } else {
        ParentOfChild(at, dir);
      }
    }
  }

  lemma DescendKeepsOld(t: Trie, at: seq<Fragment>, dir: Fragment, p: seq<Fragment>)
    requires at in t && p in t && KeptAt(t, p)
    ensures KeptAt(Descend(t, at, dir), p)
  {
    var r := Descend(t, at, dir);
    ParentOfChild(at, dir);
    hide Parent;
    assert forall q <- t :: q in r && r[q].frag_idx == t[q].frag_idx && (t[q].is_param ==> r[q].is_param);
  }

  lemma {:induction false} InsertKeeps(t: Trie, at: seq<Fragment>, fs: seq<Fragment>)
    requires Kept(t) && at in t
    ensures Kept(InsertFrom(t, at, fs))
    decreases |fs|
  {
    if fs != [] {
      DescendKeeps(t, at, fs[0]);
      InsertKeeps(Descend(t, at, fs[0]), at + [fs[0]], fs[1..]);
    }
  }

  lemma {:induction false} InsertedKept(paths: seq<Bytes>)
    ensures Kept(Inserted(paths))
    decreases |paths|
  {
    if paths != [] {
      var n := |paths| - 1;
      InsertedKept(paths[..n]);
      InsertKeeps(Inserted(paths[..n]), [], Fragments(paths[n]));
    }
  }

  // ----- searching -----

  /** No parameter child beside another child. */
  predicate Unmixed(t: Trie) {
    forall p <- t, q <- t :: p != [] && q != [] && Parent(p) == Parent(q) && IsParam(p[|p| - 1]) ==> p == q
  }

  predicate NoParams(fs: seq<Fragment>) {
    forall i | 0 <= i < |fs| :: !IsParam(fs[i])
  }

  /** Plain template matching: a fragment that begins with a brace matches anything. */
  predicate Matches(template: seq<Fragment>, fs: seq<Fragment>) {
    |template| == |fs| && forall i | 0 <= i < |fs| :: template[i] == fs[i] || BeginsWithBrace(template[i])
  }

  predicate BeginsWithBrace(f: Fragment) {
    |f| > 0 && f[0] == 0x7B
  }

  lemma BraceIsParam(f: Fragment)
    ensures IsParam(f) <==> BeginsWithBrace(f)
  {
  }

  /** The node the search reaches from `at`. */
  function SearchFrom(t: Trie, at: seq<Fragment>, fs: seq<Fragment>): Option<seq<Fragment>>
    decreases |fs|
  {
    if at !in t then None
    else if fs == [] then Some(at)
    else if at + [fs[0]] in t then SearchFrom(t, at + [fs[0]], fs[1..])
    else if t[at].is_param then SearchFrom(t, at + [t[at].dir], fs[1..])
    else None
  }

  /** What the search reaches matches. */
  lemma {:induction false} SearchMatches(t: Trie, at: seq<Fragment>, fs: seq<Fragment>)
    requires Kept(t) && SearchFrom(t, at, fs).Some?
    ensures var q := SearchFrom(t, at, fs).value; q in t && at <= q && Matches(q[|at|..], fs)
    decreases |fs|
  {
    var q := SearchFrom(t, at, fs).value;
    if fs != [] {
      assert KeptAt(t, at);
      var dir := if at + [fs[0]] in t then fs[0] else t[at].dir;
      SearchMatches(t, at + [dir], fs[1..]);
      hide Kept, SearchFrom, IsParam;
      MatchesOneMore(at, dir, q, fs);
    }
  }

  lemma MatchesOneMore(at: seq<Fragment>, dir: Fragment, q: seq<Fragment>, fs: seq<Fragment>)
    requires fs != [] && at + [dir] <= q && (dir == fs[0] || IsParam(dir)) && Matches(q[|at + [dir]|..], fs[1..])
    ensures at <= q && Matches(q[|at|..], fs)
  {
    assert q[|at|..] == [dir] + q[|at + [dir]|..];
    assert forall i | 0 < i < |fs| :: fs[i] == fs[1..][i - 1];
    BraceIsParam(dir);
    hide IsParam, BeginsWithBrace;
  }

  lemma MatchesOneLess(q: seq<Fragment>, n: nat, fs: seq<Fragment>)
    requires fs != [] && n <= |q| && Matches(q[n..], fs)
    ensures n < |q| && (q[n] == fs[0] || IsParam(q[n])) && Matches(q[n + 1..], fs[1..])
  {
    assert q[n] == q[n..][0] && q[n + 1..] == q[n..][1..];
    BraceIsParam(q[n]);
    hide IsParam, BeginsWithBrace;
    assert forall i | 0 <= i < |fs| - 1 :: fs[1..][i] == fs[i + 1] && q[n + 1..][i] == q[n..][i + 1];
  }

  lemma {:induction false} PrefixesIn(t: Trie, q: seq<Fragment>, n: nat)
    requires Kept(t) && q in t && n <= |q|
    ensures q[..n] in t
    decreases |q| - n
  {
    if n < |q| {
      PrefixesIn(t, q, n + 1);
      assert q[..n + 1][..n] == q[..n];
    } else {
      assert q[..n] == q;
    }
  }

  lemma NoParamsTail(fs: seq<Fragment>)
    requires NoParams(fs) && fs != []
    ensures !IsParam(fs[0]) && NoParams(fs[1..])
  {
    hide IsParam;
  }

  /** Whatever node matches is the one the search reaches. */
  lemma {:induction false} SearchFinds(t: Trie, at: seq<Fragment>, fs: seq<Fragment>, q: seq<Fragment>)
    requires Kept(t) && Unmixed(t) && NoParams(fs) && q in t && at <= q && Matches(q[|at|..], fs)
    ensures SearchFrom(t, at, fs) == Some(q)
    decreases |fs|
  {
    var n := |at|;
    if fs == [] {
      hide Kept, Unmixed, IsParam;
      assert q[..n] == at && q == at;
    } else {
      hide *;
      NoParamsTail(fs);
      PrefixesIn(t, q, n);
      assert q[..n] == at;
      MatchesOneLess(q, n, fs);
      var dir := q[n];
      PrefixesIn(t, q, n + 1);
      assert q[..n + 1] == at + [dir];
      OnlyChild(t, at, dir, fs[0]);
      SearchUnfolds(t, at, fs, dir);
      SearchFinds(t, at + [dir], fs[1..], q);
    }
  }

  /** The step the search takes at a node with a child that matches. */
  lemma OnlyChild(t: Trie, at: seq<Fragment>, dir: Fragment, f: Fragment)
    requires Kept(t) && Unmixed(t) && at in t && at + [dir] in t && (dir == f || IsParam(dir)) && !IsParam(f)
    ensures at + [f] in t ==> dir == f
    ensures at + [f] !in t ==> t[at].is_param && t[at].dir == dir
  {
    assert KeptAt(t, at) && KeptAt(t, at + [dir]);
    ParentOfChild(at, dir);
    ParentOfChild(at, f);
    ParentOfChild(at, t[at].dir);
    hide Parent;
  }

  /** The search against the inserted templates: it succeeds exactly when the request's
      fragments match a prefix of one, and then it has found that prefix. */
  lemma SearchIsMatching(paths: seq<Bytes>, fs: seq<Fragment>)
    requires Unmixed(Inserted(paths)) && NoParams(fs)
    ensures var r := SearchFrom(Inserted(paths), [], fs);
      && (r.Some? <==> exists q :: Matches(q, fs) && (q == [] || exists i | 0 <= i < |paths| :: q <= Fragments(paths[i])))
      && (r.Some? ==> Matches(r.value, fs) && (r.value == [] || exists i | 0 <= i < |paths| :: r.value <= Fragments(paths[i])))
  {
    var t := Inserted(paths);
    InsertedKept(paths);
    hide Inserted, Kept, Unmixed, Matches, SearchFrom;
    var r := SearchFrom(t, [], fs);
    if r.Some? {
      SearchMatches(t, [], fs);
      assert r.value[0..] == r.value;
      KeysArePrefixes(paths, r.value);
    }
    if q :| Matches(q, fs) && (q == [] || exists i | 0 <= i < |paths| :: q <= Fragments(paths[i])) {
      KeysArePrefixes(paths, q);
      assert q[0..] == q;
      SearchFinds(t, [], fs, q);
    }
  }

  // ----- the search loop -----

  lemma NextFragment(s: Bytes, p: nat)
    requires p < |s|
    ensures var e := SeekFrom(s, p, |s|, SLASH);
      && RangesFrom(s, p) == [Range(p, e)] + RangesFrom(s, e + 1)
      && Slices(s, RangesFrom(s, p)) == [s[p..e]] + Slices(s, RangesFrom(s, e + 1))
  {
    var e := SeekFrom(s, p, |s|, SLASH);
    assert RangesFrom(s, p)[1..] == RangesFrom(s, e + 1);
  }

  /** The ranges of the fragments that a template does not name literally. */
  function ParamRanges(q: seq<Fragment>, fs: seq<Fragment>, rs: seq<Range>): map<nat, Range>
    requires |fs| == |rs|
  {
    map k: nat | k < |q| && k < |fs| && q[k] != fs[k] :: rs[k]
  }

  /** Every fragment with a slash after it. */
  function Slashed(fs: seq<Fragment>): Bytes {
    if fs == [] then [] else Slashed(fs[..|fs| - 1]) + fs[|fs| - 1] + [SLASH]
  }

  lemma {:induction false} SlashedJoins(fs: seq<Fragment>)
    requires fs != []
    ensures Slashed(fs) == Joined(fs) + [SLASH]
  {
    if |fs| > 1 {
      SlashedJoins(fs[..|fs| - 1]);
    } else {
      assert fs[..0] == [];
      assert [] + fs[0] + [SLASH] == fs[0] + [SLASH];
    }
  }

  /** What the search holds at node `p`, with `beg` the start of the next fragment. */
  ghost predicate Searching(t: Trie, fs: seq<Fragment>, rs: seq<Range>, s: Bytes, beg: nat, p: seq<Fragment>,
                            whole: Option<seq<Fragment>>, oas_path: Bytes, param_idxs: map<nat, Range>)
  {
    && |fs| == |rs| && |p| <= |fs| && fs[|p|..] == Slices(s, RangesFrom(s, beg)) && rs[|p|..] == RangesFrom(s, beg)
    && SearchFrom(t, p, fs[|p|..]) == whole && p in t
    && oas_path == Slashed(p) && param_idxs == ParamRanges(p, fs, rs)
  }

  lemma SearchStarts(t: Trie, s: Bytes)
    requires [] in t
    ensures Searching(t, Fragments(s), RangesFrom(s, 0), s, 0, [], SearchFrom(t, [], Fragments(s)), [],
                      ParamRanges([], Fragments(s), RangesFrom(s, 0)))
    ensures ParamRanges([], Fragments(s), RangesFrom(s, 0)) == map[]
  {
    hide SearchFrom;
    assert Fragments(s)[0..] == Fragments(s) && RangesFrom(s, 0)[0..] == RangesFrom(s, 0);
  }

  /** The step to the child named `dir`: the next fragment itself, or the parameter. */
  lemma SearchStep(t: Trie, fs: seq<Fragment>, rs: seq<Range>, s: Bytes, beg: nat, p: seq<Fragment>, dir: Fragment,
                   whole: Option<seq<Fragment>>, oas_path: Bytes, param_idxs: map<nat, Range>)
    requires Searching(t, fs, rs, s, beg, p, whole, oas_path, param_idxs) && beg < |s| && p + [dir] in t
    requires var f := s[beg..SeekFrom(s, beg, |s|, SLASH)];
      if p + [f] in t then dir == f else t[p].is_param && t[p].dir == dir && dir != f && t[p].frag_idx == |p|
    ensures var e := SeekFrom(s, beg, |s|, SLASH);
      Searching(t, fs, rs, s, e + 1, p + [dir], whole, oas_path + dir + [SLASH],
                if p + [s[beg..e]] in t then param_idxs else param_idxs[|p| := Range(beg, e)])
  {
    var e := SeekFrom(s, beg, |s|, SLASH);
    NextFragment(s, beg);
    hide RangesFrom, Slices, Slashed, ParamRanges, SearchFrom;
    var n := |p|;
    assert fs[n] == fs[n..][0] == s[beg..e] && rs[n] == rs[n..][0] == Range(beg, e);
    assert fs[n + 1..] == fs[n..][1..] && rs[n + 1..] == rs[n..][1..];
    SearchUnfolds(t, p, fs[n..], dir);
    SlashedStep(p, dir);
    ParamRangesStep(p, dir, fs, rs);
  }

  lemma SearchUnfolds(t: Trie, p: seq<Fragment>, fs: seq<Fragment>, dir: Fragment)
    requires fs != [] && p in t && (if p + [fs[0]] in t then dir == fs[0] else t[p].is_param && t[p].dir == dir)
    ensures SearchFrom(t, p, fs) == SearchFrom(t, p + [dir], fs[1..])
  {
  }

  lemma SlashedStep(p: seq<Fragment>, dir: Fragment)
    ensures Slashed(p + [dir]) == Slashed(p) + dir + [SLASH]
  {
    assert (p + [dir])[..|p|] == p;
  }

  lemma ParamRangesStep(p: seq<Fragment>, dir: Fragment, fs: seq<Fragment>, rs: seq<Range>)
    requires |p| < |fs| == |rs|
    ensures ParamRanges(p + [dir], fs, rs) ==
            if dir == fs[|p|] then ParamRanges(p, fs, rs) else ParamRanges(p, fs, rs)[|p| := rs[|p|]]
    ensures |p| !in ParamRanges(p, fs, rs)
  {
  }

  lemma SearchFails(t: Trie, fs: seq<Fragment>, rs: seq<Range>, s: Bytes, beg: nat, p: seq<Fragment>,
                    whole: Option<seq<Fragment>>, oas_path: Bytes, param_idxs: map<nat, Range>)
    requires Searching(t, fs, rs, s, beg, p, whole, oas_path, param_idxs) && beg < |s|
    requires p + [s[beg..SeekFrom(s, beg, |s|, SLASH)]] !in t && !t[p].is_param
    ensures whole == None
  {
    NextFragment(s, beg);
    hide RangesFrom, Slices;
    assert fs[|p|..][0] == s[beg..SeekFrom(s, beg, |s|, SLASH)];
  }

  lemma SearchEnds(t: Trie, fs: seq<Fragment>, rs: seq<Range>, s: Bytes, beg: nat, p: seq<Fragment>,
                   whole: Option<seq<Fragment>>, oas_path: Bytes, param_idxs: map<nat, Range>)
    requires Searching(t, fs, rs, s, beg, p, whole, oas_path, param_idxs) && beg >= |s|
    ensures whole == Some(p) && param_idxs == ParamRanges(p, fs, rs)
    ensures (if oas_path == [] then [] else oas_path[..|oas_path| - 1]) == Joined(p)
  {
    if p != [] { SlashedJoins(p); }
  }

  /** A path is found in the trie of one template it matches. */
  lemma OneTemplate(path: Bytes, fs: seq<Fragment>)
    requires NoParams(fs) && Matches(Fragments(path), fs)
    ensures SearchFrom(Inserted([path]), [], fs) == Some(Fragments(path))
  {
    hide *;
    var t, q := Inserted([path]), Fragments(path);
    InsertedKept([path]);
    forall p ensures p in t ==> p <= q {
      KeysOfOne(path, p);
    }
    KeysOfOne(path, q);
    PrefixesUnmixed(t, q);
    assert q[0..] == q && [] <= q;
    SearchFinds(t, [], fs, q);
  }

  lemma KeysOfOne(path: Bytes, p: seq<Fragment>)
    ensures p in Inserted([path]) <==> p <= Fragments(path)
  {
    hide *;
    KeysArePrefixes([path], p);
    assert [path][0] == path;
    if p == [] { assert p <= Fragments(path); }
  }

  lemma PrefixesUnmixed(t: Trie, q: seq<Fragment>)
    requires forall p :: p in t ==> p <= q
    ensures Unmixed(t)
  {
    hide IsParam;
    forall p <- t, r <- t | p != [] && r != [] && Parent(p) == Parent(r) ensures p == r {
      assert |p| == |r| && p == q[..|p|] && r == q[..|r|];
    }
  }

  function Slashes(a: Bytes, b: Bytes): Bytes {
    [0x2F] + a + [0x2F] + b
  }

  lemma SlashesAre(a: Bytes, b: Bytes)
    ensures Slashes(a, b) == [0x2F] + a + [0x2F] + b
  {
  }

  predicate IsName(a: Bytes) {
    a != [] && 0x2F !in a && a[0] != 0x7B
  }

  /** `/a/{b}` is found for `/a/x`, and does not match `/c/x`. */
  lemma ParameterMatches(a: Bytes, param: Bytes, b: Bytes, c: Bytes)
    requires IsName(a) && IsName(b) && IsName(c) && a != c && param != [] && param[0] == 0x7B && 0x2F !in param
    ensures var template := Slashes(a, param);
      && SearchFrom(Inserted([template]), [], Fragments(Slashes(a, b))) == Some(Fragments(template))
      && Joined(Fragments(template)) == template && !Matches(Fragments(template), Fragments(Slashes(c, b)))
  {
    hide SearchFrom, Inserted, Fragments, Slashes;
    TwoFragments(a, param);
    TwoFragments(a, b);
    TwoFragments(c, b);
    var template: seq<Fragment>, path: seq<Fragment>, other: seq<Fragment> := [[], a, param], [[], a, b], [[], c, b];
    assert Matches(template, path) && NoParams(path);
    assert template[1] != other[1] && !BeginsWithBrace(template[1]);
    OneTemplate(Slashes(a, param), path);
    JoinedThree(a, param);
    SlashesAre(a, param);
  }

  lemma JoinedThree(a: Bytes, b: Bytes)
    ensures Joined([[], a, b]) == [0x2F] + a + [0x2F] + b
  {
    var fs: seq<Fragment> := [[], a, b];
    assert fs[..2] == [[], a] && fs[..2][..1] == [[]];
    assert Joined(fs[..2]) == [] + [SLASH] + a == [0x2F] + a;
    hide Joined;
    assert fs[2] == b;
  }

  /** A path of two fragments behind its slash. */
  lemma TwoFragments(a: Bytes, b: Bytes)
    requires b != [] && 0x2F !in a && 0x2F !in b
    ensures Fragments(Slashes(a, b)) == [[], a, b]
  {
    var s, n := Slashes(a, b), |a|;
    hide *;
    SlashesAt(a, b);
    FragmentTo(s, 0, 0);
    FragmentTo(s, 1, n + 1);
    FragmentTo(s, n + 2, |s|);
    PathTrie.NothingLeft(s, |s| + 1);
    FragmentsFrom(s);
    assert [[]] + ([a] + ([b] + [])) == [[], a, b];
  }

  lemma SlashesAt(a: Bytes, b: Bytes)
    requires b != [] && 0x2F !in a && 0x2F !in b
    ensures var s, n := Slashes(a, b), |a|;
      && |s| == n + 2 + |b| && s[0] == 0x2F && s[n + 1] == 0x2F && s[0..0] == [] && s[1..n + 1] == a && s[n + 2..|s|] == b
      && (forall i | 1 <= i < n + 1 :: s[i] != 0x2F) && (forall i | n + 2 <= i < |s| :: s[i] != 0x2F)
  {
  }

  lemma FragmentsFrom(s: Bytes)
    ensures Fragments(s) == Slices(s, RangesFrom(s, 0))
  {
  }

  lemma FragmentTo(s: Bytes, p: nat, q: nat)
    requires p <= q <= |s| && p < |s| && (forall i | p <= i < q :: s[i] != 0x2F) && (q < |s| ==> s[q] == 0x2F)
    ensures Slices(s, RangesFrom(s, p)) == [s[p..q]] + Slices(s, RangesFrom(s, q + 1))
  {
    hide *;
    Found(s, p, q);
    NextFragment(s, p);
  }

  lemma Found(s: Bytes, p: nat, q: nat)
    requires p <= q <= |s| && (forall i | p <= i < q :: s[i] != 0x2F) && (q < |s| ==> s[q] == 0x2F)
    ensures SeekFrom(s, p, |s|, SLASH) == q
  {
    var r := SeekFrom(s, p, |s|, SLASH);
    assert r < |s| ==> s[r] == 0x2F;
  }

  // ----- parameter indices -----

  /** The name in braces of a parameter fragment. */
  function NameOf(f: Fragment): Option<Bytes> {
    if f != [] && f[0] == OPEN_BRACE && f[|f| - 1] == CLOSE_BRACE then Some(f[1..|f| - 1]) else None
  }

  lemma NameInBraces(f: Fragment, name: Bytes)
    ensures NameOf(f) == Some(name) <==> f == [0x7B] + name + [0x7D]
  {
    if NameOf(f).Some? { assert f == [f[0]] + f[1..|f| - 1] + [f[|f| - 1]]; }
    if f == [0x7B] + name + [0x7D] { assert f[1..|f| - 1] == name; }
  }

  /** Every parameter name of a template with the index of the first fragment that has it. */
  ghost predicate AreIndices(fs: seq<Fragment>, m: map<Bytes, nat>) {
    && (forall name <- m :: m[name] < |fs| && NameOf(fs[m[name]]) == Some(name))
    && (forall k | 0 <= k < |fs| && NameOf(fs[k]).Some? :: NameOf(fs[k]).value in m && m[NameOf(fs[k]).value] <= k)
  }

  lemma IndicesStep(fs: seq<Fragment>, m: map<Bytes, nat>, f: Fragment)
    requires AreIndices(fs, m)
    ensures AreIndices(fs + [f], if NameOf(f).Some? && NameOf(f).value !in m then m[NameOf(f).value := |fs|] else m)
  {
    hide NameOf;
  }

  /** `GetPathParamIndices`. */
  method GetPathParamIndices(path: Bytes) returns (param_idxs: map<Bytes, nat>)
    ensures AreIndices(Fragments(path), param_idxs)
  {
    param_idxs := map[];
    var dir_start, frag_idx := 0, 0;
    ghost var fs := Fragments(path);
    IndicesStart(fs);
    hide RangesFrom, Slices, SeekFrom, AreIndices, NameOf;
    while dir_start < |path|
      invariant 0 <= dir_start && 0 <= frag_idx <= |fs| && fs[frag_idx..] == Slices(path, RangesFrom(path, dir_start))
      invariant AreIndices(fs[..frag_idx], param_idxs)
      decreases |path| - dir_start
    {
      var dir_end := Seek(path, dir_start, |path|, SLASH);
      var f := path[dir_start..dir_end];
      NextIndexed(path, fs, dir_start, frag_idx, param_idxs);
      var name := NameOf(f);
      if name.Some? && name.value !in param_idxs { param_idxs := param_idxs[name.value := frag_idx]; }
      dir_start := dir_end + 1;
      frag_idx := frag_idx + 1;
    }
    PathTrie.NothingLeft(path, dir_start);
    assert fs[..frag_idx] == fs;
  }

  lemma IndicesStart(fs: seq<Fragment>)
    ensures fs[0..] == fs && AreIndices(fs[..0], map[])
  {
  }

  lemma NextIndexed(path: Bytes, fs: seq<Fragment>, p: nat, k: nat, m: map<Bytes, nat>)
    requires p < |path| && k <= |fs| && fs[k..] == Slices(path, RangesFrom(path, p)) && AreIndices(fs[..k], m)
    ensures var e := SeekFrom(path, p, |path|, SLASH);
      var name := NameOf(path[p..e]);
      && k < |fs| && fs[k + 1..] == Slices(path, RangesFrom(path, e + 1))
      && AreIndices(fs[..k + 1], if name.Some? && name.value !in m then m[name.value := k] else m)
  {
    NextFragment(path, p);
    hide RangesFrom, Slices, SeekFrom, AreIndices, NameOf;
    var f := path[p..SeekFrom(path, p, |path|, SLASH)];
    assert fs[k] == fs[k..][0] == f && fs[k + 1..] == fs[k..][1..];
    assert fs[..k + 1] == fs[..k] + [f];
    IndicesStep(fs[..k], m, f);
  }

  /** Where the search has found a prefix of a template, the index of a parameter of that
      template leads to the fragment of the request the parameter stands for. */
  lemma IndexLeadsToFragment(t: Trie, s: Bytes, q: seq<Fragment>, template: seq<Fragment>, m: map<Bytes, nat>, name: Bytes)
    requires Kept(t) && NoParams(Fragments(s)) && SearchFrom(t, [], Fragments(s)) == Some(q)
    requires q <= template && AreIndices(template, m) && name in m && m[name] < |q|
    ensures var found := ParamRanges(q, Fragments(s), RangesFrom(s, 0));
      && m[name] in found && Slice(s, found[m[name]]) == Fragments(s)[m[name]]
      && NameOf(template[m[name]]) == Some(name)
  {
    SearchMatches(t, [], Fragments(s));
    assert q[0..] == q;
    var k := m[name];
    BraceIsParam(q[k]);
    assert q[k] == template[k] && IsParam(q[k]) && !IsParam(Fragments(s)[k]);
    hide RangesFrom, Slices, SearchFrom, Kept;
  }

  /** Fragments follow one another, one slash apart. */
  lemma {:induction false} Consecutive(s: Bytes, p: nat, k: nat)
    requires 0 < k < |RangesFrom(s, p)|
    ensures var rs := RangesFrom(s, p); rs[k - 1].end < |s| && s[rs[k - 1].end] == SLASH && rs[k].beg == rs[k - 1].end + 1
    decreases |s| - p
  {
    hide RangesFrom, Slices, SeekFrom;
    FirstRange(s, p);
    var e := SeekFrom(s, p, |s|, SLASH);
    NextFragment(s, p);
    if k > 1 { Consecutive(s, e + 1, k - 1); } else { FirstRange(s, e + 1); }
  }

  lemma FirstRange(s: Bytes, p: nat)
    requires RangesFrom(s, p) != []
    ensures p < |s| && RangesFrom(s, p)[0].beg == p
  {
    hide SeekFrom;
  }

  lemma {:induction false} JoinedIsPrefix(s: Bytes, k: nat)
    requires 0 < k <= |Fragments(s)|
    ensures Joined(Fragments(s)[..k]) == s[..RangesFrom(s, 0)[k - 1].end]
    decreases k
  {
    hide RangesFrom, Slices, SeekFrom;
    var fs, rs := Fragments(s), RangesFrom(s, 0);
    FirstRange(s, 0);
    if k == 1 {
      assert fs[..1][0] == fs[0] == Slice(s, rs[0]);
    } else {
      JoinedIsPrefix(s, k - 1);
      Consecutive(s, 0, k - 1);
      var a, b := rs[k - 2].end, rs[k - 1].end;
      JoinedStep(fs, k);
      hide Joined;
      assert fs[k - 1] == s[a + 1..b];
      assert s[..a + 1] == s[..a] + [SLASH] && s[..b] == s[..a + 1] + s[a + 1..b];
    }
  }

  lemma JoinedStep(fs: seq<Fragment>, k: nat)
    requires 1 < k <= |fs|
    ensures Joined(fs[..k]) == Joined(fs[..k - 1]) + [SLASH] + fs[k - 1]
  {
    assert fs[..k][..k - 1] == fs[..k - 1];
  }

  /** The path the search returns begins an inserted template, character by character. */
  lemma PathBeginsTemplate(path: Bytes, q: seq<Fragment>)
    requires q <= Fragments(path)
    ensures Joined(q) <= path
  {
    if q != [] {
      JoinedIsPrefix(path, |q|);
      assert Fragments(path)[..|q|] == q;
    }
  }

  // ----- the trie itself -----

  /** `PathTrie`, its nodes in one table. A node is known by the fragments that lead to it,
      and `children.find` looks for it one fragment further. */
  class PathTrie {
    var nodes: Trie

    constructor ()
      ensures nodes == EMPTY
    {
      nodes := EMPTY;
    }

    static lemma InsertionKeeps(t: Trie, path: Bytes)
      requires [] in t && Kept(t)
      ensures [] in InsertFrom(t, [], Fragments(path)) && Kept(InsertFrom(t, [], Fragments(path)))
    {
      InsertKeeps(t, [], Fragments(path));
      InsertKeys(t, [], Fragments(path));
    }

    /** One fragment of `Insert` at `node`. */
    method InsertFragment(node: seq<Fragment>, dir: Fragment, fragment_index: nat) returns (child: seq<Fragment>)
      requires node in nodes && fragment_index == |node| + 1
      modifies this
      ensures nodes == Descend(old(nodes), node, dir) && child == node + [dir]
    {
      if IsParam(dir) { nodes := nodes[node := nodes[node].(is_param := true, dir := dir)]; }
      child := node + [dir];
      if child !in nodes { nodes := nodes[child := Fields([], false, fragment_index)]; }
    }

    /** `Insert`: walk down, marking parameter nodes and adding the missing ones. */
    method Insert(path: Bytes)
      requires [] in nodes && Kept(nodes)
      modifies this
      ensures nodes == InsertFrom(old(nodes), [], Fragments(path))
      ensures [] in nodes && Kept(nodes)
    {
      hide *;
      ghost var whole := InsertFrom(nodes, [], Fragments(path));
      InsertionKeeps(nodes, path);
      InsertStarts(nodes, path);
      var node: seq<Fragment>, dir_start, fragment_index := [], 0, 0;
      while dir_start < |path|
        invariant node in nodes && fragment_index == |node| && 0 <= dir_start
        invariant InsertFrom(nodes, node, Slices(path, RangesFrom(path, dir_start))) == whole
        decreases |path| - dir_start
      {
        var dir_end := Seek(path, dir_start, |path|, SLASH);
        var dir := path[dir_start..dir_end];
        InsertMoves(nodes, node, path, dir_start);
        fragment_index := fragment_index + 1;
        node := InsertFragment(node, dir, fragment_index);
        dir_start := dir_end + 1;
      }
      InsertNothing(nodes, node, path, dir_start);
    }

    static lemma InsertStarts(t: Trie, path: Bytes)
      requires [] in t
      ensures InsertFrom(t, [], Slices(path, RangesFrom(path, 0))) == InsertFrom(t, [], Fragments(path))
    {
    }

    static lemma InsertMoves(t: Trie, at: seq<Fragment>, path: Bytes, p: nat)
      requires at in t && p < |path|
      ensures var e := SeekFrom(path, p, |path|, SLASH);
        InsertFrom(t, at, Slices(path, RangesFrom(path, p)))
          == InsertFrom(Descend(t, at, path[p..e]), at + [path[p..e]], Slices(path, RangesFrom(path, e + 1)))
    {
      NextFragment(path, p);
      InsertUnfolds(t, at, Slices(path, RangesFrom(path, p)));
      hide *;
    }

    static lemma NothingLeft(path: Bytes, p: nat)
      requires p >= |path|
      ensures RangesFrom(path, p) == [] && Slices(path, []) == []
    {
    }

    static lemma InsertNothing(t: Trie, at: seq<Fragment>, path: Bytes, p: nat)
      requires at in t && p >= |path|
      ensures InsertFrom(t, at, Slices(path, RangesFrom(path, p))) == t
    {
      NothingLeft(path, p);
      hide RangesFrom;
    }

    /** `children.begin()->second`: some child, in no known order. */
    method FirstChild(node: seq<Fragment>) returns (child: seq<Fragment>)
      requires Kept(nodes) && node in nodes && nodes[node].is_param
      ensures child in nodes && child != [] && Parent(child) == node
      ensures Unmixed(nodes) ==> child == node + [nodes[node].dir]
    {
      assert KeptAt(nodes, node);
      ParentOfChild(node, nodes[node].dir);
      var some := node + [nodes[node].dir];
      assert some in nodes && some != [] && Parent(some) == node;
      child :| child in nodes && child != [] && Parent(child) == node;
    }

    lemma ParamStep(fs: seq<Fragment>, rs: seq<Range>, s: Bytes, beg: nat, p: seq<Fragment>, f: Fragment,
                    whole: Option<seq<Fragment>>, oas_path: Bytes, param_idxs: map<nat, Range>)
      requires Kept(nodes) && p in nodes && nodes[p].is_param && beg < |s|
      requires f == s[beg..SeekFrom(s, beg, |s|, SLASH)] && p + [f] !in nodes
      requires Searching(nodes, fs, rs, s, beg, p, whole, oas_path, param_idxs)
      ensures var e := SeekFrom(s, beg, |s|, SLASH);
        var idx := nodes[p].frag_idx;
        Searching(nodes, fs, rs, s, e + 1, p + [nodes[p].dir], whole, oas_path + nodes[p].dir + [SLASH],
                  if idx in param_idxs then param_idxs else param_idxs[idx := Range(beg, e)])
    {
      assert KeptAt(nodes, p);
      hide Kept, IsParam, ParamRanges, Slashed, SearchFrom, RangesFrom, Slices;
      SearchStep(nodes, fs, rs, s, beg, p, nodes[p].dir, whole, oas_path, param_idxs);
      NotYetFound(p, fs, rs);
    }

    static lemma NotYetFound(p: seq<Fragment>, fs: seq<Fragment>, rs: seq<Range>)
      requires |fs| == |rs|
      ensures |p| !in ParamRanges(p, fs, rs)
    {
    }

    /** `Search` from an empty map. Where no parameter child stands beside another child,
        `children.begin()` is that child and the outcome is the one matching decides. */
    method Search(s: Bytes) returns (found: bool, oas_path: Bytes, param_idxs: map<nat, Range>)
      requires [] in nodes && Kept(nodes)
      ensures Unmixed(nodes) ==>
        var q := SearchFrom(nodes, [], Fragments(s));
        && found == q.Some?
        && (found ==> oas_path == Joined(q.value) && param_idxs == ParamRanges(q.value, Fragments(s), RangesFrom(s, 0)))
        && (!found ==> oas_path == [])
    {
      ghost var fs, rs := Fragments(s), RangesFrom(s, 0);
      ghost var whole := SearchFrom(nodes, [], fs);
      SearchStarts(nodes, s);
      var node: seq<Fragment>, beg := [], 0;
      oas_path, param_idxs := [], map[];
      hide Kept, KeptAt, Unmixed, ParamRanges, Searching, SearchFrom, RangesFrom, Slices, Joined, IsParam;
      while beg < |s|
        invariant node in nodes && 0 <= beg
        invariant Unmixed(nodes) ==> Searching(nodes, fs, rs, s, beg, node, whole, oas_path, param_idxs)
        decreases |s| - beg
      {
        var dir_end := Seek(s, beg, |s|, SLASH);
        var dir := s[beg..dir_end];
        if node + [dir] in nodes {
          if Unmixed(nodes) { SearchStep(nodes, fs, rs, s, beg, node, dir, whole, oas_path, param_idxs); }
          oas_path := oas_path + dir + [SLASH];
          node := node + [dir];
        } else if nodes[node].is_param {
          if Unmixed(nodes) { ParamStep(fs, rs, s, beg, node, dir, whole, oas_path, param_idxs); }
          var fields := nodes[node];
          oas_path := oas_path + fields.dir + [SLASH];
          param_idxs := if fields.frag_idx in param_idxs then param_idxs else param_idxs[fields.frag_idx := Range(beg, dir_end)];
          node := FirstChild(node);
        } else {
          if Unmixed(nodes) { SearchFails(nodes, fs, rs, s, beg, node, whole, oas_path, param_idxs); }
          return false, [], param_idxs;
        }
        beg := dir_end + 1;
      }
      if Unmixed(nodes) { SearchEnds(nodes, fs, rs, s, beg, node, whole, oas_path, param_idxs); }
      if oas_path != [] { oas_path := oas_path[..|oas_path| - 1]; }
      found := true;
    }
  }
}
