/** `ResolveReferences`: local references inlined in place, in a document that is also the
    table they are looked up in. */
module References {
  import opened Common
  import opened Json
  import PathTries

  // ----- references and lookups -----

  /** What a zero-terminated string shows. */
  function CString(s: Bytes): Bytes {
    if s == [] || s[0] == 0 then [] else [s[0]] + CString(s[1..])
  }

  const REF: Bytes := ['$' as int, 'r' as int, 'e' as int, 'f' as int]
  const LOCAL: Bytes := ['#' as int, '/' as int]

  type Path = seq<Bytes>

  predicate IsLocalRef(m: Member) {
    CString(m.name) == REF && m.value.String? && LOCAL <= CString(m.value.s)
  }

  /** `Split` of a reference behind its `#/`. */
  function PathOf(m: Member): Path
    requires IsLocalRef(m)
  {
    PathTries.Fragments(CString(m.value.s)[2..])
  }

  /** The first local reference among the members. */
  function FirstRef(ms: seq<Member>): Option<Path> {
    if ms == [] then None
    else if IsLocalRef(ms[0]) then Some(PathOf(ms[0]))
    else FirstRef(ms[1..])
  }

  function RefOf(v: Value): Option<Path> {
    if v.Object? then FirstRef(v.ms) else None
  }

  /** How many members stand before the first local reference. */
  function RefIndex(ms: seq<Member>): (k: nat)
    ensures k <= |ms| && (k < |ms| <==> FirstRef(ms).Some?)
    ensures k < |ms| ==> IsLocalRef(ms[k]) && FirstRef(ms) == Some(PathOf(ms[k]))
    ensures forall i | 0 <= i < k :: !IsLocalRef(ms[i])
  {
    if ms == [] || IsLocalRef(ms[0]) then 0 else RefIndex(ms[1..]) + 1
  }

  function Width(v: Value): nat {
    if v.Array? then |v.es| else if v.Object? then |v.ms| else 0
  }

  function Child(v: Value, i: nat): (c: Value)
    requires i < Width(v)
    ensures c < v
  {
    if v.Array? then v.es[i] else v.ms[i].value
  }

  /** How many elements or members the rewriting enters: in an object with a reference,
      those before it. The object is then replaced whole. */
  function Span(v: Value): (k: nat)
    ensures k <= Width(v) && (RefOf(v).None? ==> k == Width(v))
  {
    if v.Object? then RefIndex(v.ms) else Width(v)
  }

  /** The first member of a name. */
  function Find(ms: seq<Member>, name: Bytes): (r: Option<nat>)
    ensures r.Some? ==> r.value < |ms| && ms[r.value].name == name
  {
    FirstNamed(ms, (m: Member) => m.name, name)
  }

  /** `ResolvePath`; nothing where it throws. */
  function Lookup(d: Value, path: Path): Option<Value>
    decreases |path|
  {
    if path == [] then Some(d)
    else if !d.Object? then None
    else
      var i := Find(d.ms, CString(path[0]));
      if i.None? then None else Lookup(d.ms[i.value].value, path[1..])
  }

  // ----- documents whose references can be inlined -----

  /** A document and an order of its reference targets. */
  datatype Source = Source(doc: Value, rank: map<Path, nat>)

  /** Every reference the rewriting of `v` meets has a target of rank below `n`. */
  predicate Good(g: Source, v: Value, n: nat)
    decreases v
  {
    && (RefOf(v).Some? ==> RefOf(v).value in g.rank && g.rank[RefOf(v).value] < n)
    && forall i | 0 <= i < Span(v) :: Good(g, Child(v, i), n)
  }

  /** The path leads through no object that has a reference itself. */
  predicate Clear(d: Value, path: Path)
    decreases |path|
  {
    path == [] ||
    (d.Object? && RefOf(d).None? &&
     var i := Find(d.ms, CString(path[0]));
     i.Some? && Clear(d.ms[i.value].value, path[1..]))
  }

  /** Every target is an object of the document, found through none that has a reference,
      and only refers to targets of smaller rank: references form no cycle. */
  ghost predicate Acyclic(g: Source) {
    forall path <- g.rank ::
      && Lookup(g.doc, path).Some? && Lookup(g.doc, path).value.Object? && Clear(g.doc, path)
      && Good(g, Lookup(g.doc, path).value, g.rank[path])
  }

  function Target(g: Source, path: Path): Value
    requires path in g.rank && Lookup(g.doc, path).Some?
  {
    Lookup(g.doc, path).value
  }

  /** Pure inlining: every object with a reference replaced by its target in the original
      document, inlined in turn. */
  ghost function Full(g: Source, v: Value, n: nat): Value
    requires Acyclic(g) && Good(g, v, n)
    decreases n, v
  {
    if RefOf(v).Some? then Full(g, Target(g, RefOf(v).value), g.rank[RefOf(v).value])
    else if v.Array? then
      Array(seq(|v.es|, i requires 0 <= i < |v.es| => Full(g, Child(v, i), n)))
    else if v.Object? then
      Object(seq(|v.ms|, i requires 0 <= i < |v.ms| => Member(v.ms[i].name, Full(g, Child(v, i), n))))
    else v
  }

  /** The same kind of value, with the same number of parts and the same names. */
  predicate SameFrame(x: Value, y: Value) {
    && (x.Array? <==> y.Array?) && (x.Object? <==> y.Object?) && Width(x) == Width(y)
    && (x.Object? ==> forall i | 0 <= i < |x.ms| :: x.ms[i].name == y.ms[i].name)
    && (!x.Array? && !x.Object? ==> x == y)
  }

  /** `y` is `x` with some references inlined, some of them perhaps only in part. */
  ghost predicate Partial(g: Source, x: Value, n: nat, y: Value)
    requires Acyclic(g) && Good(g, x, n)
    decreases n, x, 1
  {
    (RefOf(x).Some? && Partial(g, Target(g, RefOf(x).value), g.rank[RefOf(x).value], y)) || Spread(g, x, n, y)
  }

  /** The same object or array, with some of the parts the rewriting enters inlined. */
  ghost predicate Spread(g: Source, x: Value, n: nat, y: Value)
    requires Acyclic(g) && Good(g, x, n)
    decreases n, x, 0
  {
    && SameFrame(x, y)
    && (forall i | 0 <= i < Span(x) :: Partial(g, Child(x, i), n, Child(y, i)))
    && forall i | Span(x) <= i < Width(x) :: Child(y, i) == Child(x, i)
  }

  // ----- bounds do not matter -----

  lemma {:induction false} GoodAbove(g: Source, v: Value, m: nat, n: nat)
    requires Good(g, v, m) && m <= n
    ensures Good(g, v, n)
    decreases v
  {
    forall i | 0 <= i < Span(v) ensures Good(g, Child(v, i), n) { GoodAbove(g, Child(v, i), m, n); }
  }

  lemma {:induction false} FullAnyBound(g: Source, v: Value, m: nat, n: nat)
    requires Acyclic(g) && Good(g, v, m) && Good(g, v, n)
    ensures Full(g, v, m) == Full(g, v, n)
    decreases v
  {
    if RefOf(v).None? {
      forall i | 0 <= i < Span(v) ensures Full(g, Child(v, i), m) == Full(g, Child(v, i), n) { FullAnyBound(g, Child(v, i), m, n); }
    }
  }

  lemma {:induction false} PartialAnyBound(g: Source, x: Value, m: nat, n: nat, y: Value)
    requires Acyclic(g) && Good(g, x, m) && Good(g, x, n) && Partial(g, x, m, y)
    ensures Partial(g, x, n, y)
    decreases x
  {
    if Spread(g, x, m, y) {
      forall i | 0 <= i < Span(x) ensures Partial(g, Child(x, i), n, Child(y, i)) { PartialAnyBound(g, Child(x, i), m, n, Child(y, i)); }
    }
  }

  // ----- expansion is a preorder that keeps the inlined value -----

  lemma {:induction false} PartialSelf(g: Source, x: Value, n: nat)
    requires Acyclic(g) && Good(g, x, n)
    ensures Spread(g, x, n, x)
    decreases x
  {
    forall i | 0 <= i < Span(x) ensures Partial(g, Child(x, i), n, Child(x, i)) { PartialSelf(g, Child(x, i), n); }
  }

  /** Expansion turns objects into objects and leaves strings alone. */
  lemma {:induction false} PartialKind(g: Source, x: Value, n: nat, y: Value)
    requires Acyclic(g) && Good(g, x, n) && Partial(g, x, n, y)
    ensures x.Object? <==> y.Object?
    ensures x.String? <==> y.String?
    ensures x.String? ==> x == y
    decreases n
  {
    if !Spread(g, x, n, y) {
      PartialKind(g, Target(g, RefOf(x).value), g.rank[RefOf(x).value], y);
    }
  }

  /** Members that differ in expanded values only have the same references. */
  lemma {:induction false} SameRefs(xs: seq<Member>, ys: seq<Member>)
    requires |xs| == |ys|
    requires forall i | 0 <= i < |xs| ::
      xs[i].name == ys[i].name && (xs[i].value.String? <==> ys[i].value.String?) && (xs[i].value.String? ==> xs[i].value == ys[i].value)
    ensures FirstRef(xs) == FirstRef(ys) && RefIndex(xs) == RefIndex(ys)
  {
    if xs != [] {
      assert xs[0].name == ys[0].name;
      SameRefs(xs[1..], ys[1..]);
    }
  }

  /** Spreading makes and removes no reference. */
  lemma SpreadRef(g: Source, x: Value, n: nat, y: Value)
    requires Acyclic(g) && Good(g, x, n) && Spread(g, x, n, y)
    ensures RefOf(y) == RefOf(x) && Span(y) == Span(x)
  {
    if x.Object? {
      forall i | 0 <= i < |x.ms|
        ensures (x.ms[i].value.String? <==> y.ms[i].value.String?) && (x.ms[i].value.String? ==> x.ms[i].value == y.ms[i].value)
      {
        if i < Span(x) { PartialKind(g, Child(x, i), n, Child(y, i)); } else { assert Child(y, i) == Child(x, i); }
      }
      SameRefs(x.ms, y.ms);
    }
  }

  /** An expansion can be inlined too, to the same value. */
  lemma {:induction false} PartialKeepsFull(g: Source, x: Value, n: nat, y: Value)
    requires Acyclic(g) && Good(g, x, n) && Partial(g, x, n, y)
    ensures Good(g, y, n) && Full(g, y, n) == Full(g, x, n)
    decreases n, x
  {
    if Spread(g, x, n, y) {
      SpreadRef(g, x, n, y);
      forall i | 0 <= i < Span(x) ensures Good(g, Child(y, i), n) && Full(g, Child(y, i), n) == Full(g, Child(x, i), n) {
        PartialKeepsFull(g, Child(x, i), n, Child(y, i));
      }
      SameFull(g, x, n, y);
    } else {
      var path := RefOf(x).value;
      var m := g.rank[path];
      PartialKeepsFull(g, Target(g, path), m, y);
      GoodAbove(g, y, m, n);
      FullAnyBound(g, y, m, n);
    }
  }

  /** Values with the same frame whose parts have the same inlinings. */
  lemma SameFull(g: Source, x: Value, n: nat, y: Value)
    requires Acyclic(g) && Good(g, x, n) && SameFrame(x, y) && RefOf(y) == RefOf(x) && Span(y) == Span(x)
    requires forall i | 0 <= i < Span(x) :: Good(g, Child(y, i), n) && Full(g, Child(y, i), n) == Full(g, Child(x, i), n)
    ensures Good(g, y, n) && Full(g, y, n) == Full(g, x, n)
  {
    assert Good(g, y, n);
    if RefOf(x).None? {
      if x.Array? {
        assert Full(g, y, n).es == Full(g, x, n).es;
      } else if x.Object? {
        assert Full(g, y, n).ms == Full(g, x, n).ms;
      }
    }
  }

  lemma {:induction false} PartialTwice(g: Source, x: Value, n: nat, y: Value, z: Value)
    requires Acyclic(g) && Good(g, x, n) && Partial(g, x, n, y) && Good(g, y, n) && Partial(g, y, n, z)
    ensures Partial(g, x, n, z)
    decreases n, x
  {
    if Spread(g, x, n, y) {
      SpreadRef(g, x, n, y);
      if Spread(g, y, n, z) {
        forall i | 0 <= i < Span(x) ensures Partial(g, Child(x, i), n, Child(z, i)) {
          PartialTwice(g, Child(x, i), n, Child(y, i), Child(z, i));
        }
      }
    } else {
      var path := RefOf(x).value;
      var m := g.rank[path];
      PartialKeepsFull(g, Target(g, path), m, y);
      PartialAnyBound(g, y, n, m, z);
      PartialTwice(g, Target(g, path), m, y, z);
    }
  }

  // ----- lookups in a half-rewritten document -----

  lemma {:induction false} SameFind(xs: seq<Member>, ys: seq<Member>, name: Bytes)
    requires |xs| == |ys| && forall i | 0 <= i < |xs| :: xs[i].name == ys[i].name
    ensures Find(xs, name) == Find(ys, name)
  {
    if xs != [] {
      assert xs[0].name == ys[0].name;
      SameFind(xs[1..], ys[1..], name);
    }
  }

  /** Where the original has an object, an expansion has an expansion of it. */
  lemma {:induction false} LookupPartial(g: Source, x: Value, n: nat, y: Value, path: Path)
    requires Acyclic(g) && Good(g, x, n) && Partial(g, x, n, y)
    requires Lookup(x, path).Some? && Clear(x, path)
    ensures var t, u := Lookup(x, path).value, Lookup(y, path);
      u.Some? && Good(g, t, n) && Partial(g, t, n, u.value)
    decreases |path|
  {
    if path != [] {
      assert Spread(g, x, n, y);
      SameFind(x.ms, y.ms, CString(path[0]));
      var i := Find(x.ms, CString(path[0])).value;
      assert Good(g, Child(x, i), n) && Partial(g, Child(x, i), n, Child(y, i));
      LookupPartial(g, x.ms[i].value, n, y.ms[i].value, path[1..]);
    }
  }

  /** In a document whose references stand alone, no path to an object leads through one. */
  lemma {:induction false} AloneIsClear(d: Value, path: Path)
    requires Alone(d) && Lookup(d, path).Some? && Lookup(d, path).value.Object?
    ensures Clear(d, path)
    decreases |path|
  {
    if path != [] {
      var i := Find(d.ms, CString(path[0])).value;
      if RefOf(d).Some? { DeadEnd(d, path); }
      assert Alone(Child(d, i));
      AloneIsClear(d.ms[i].value, path[1..]);
    }
  }

  lemma DeadEnd(d: Value, path: Path)
    requires RefOf(d).Some? && |d.ms| == 1 && path != []
    ensures Lookup(d, path).Some? ==> !Lookup(d, path).value.Object?
  {
    assert RefIndex(d.ms) == 0 && d.ms[0].value.String?;
    assert path[1..] == [] || Lookup(d.ms[0].value, path[1..]).None?;
  }

  predicate Alone(v: Value)
    decreases v
  {
    (RefOf(v).Some? ==> |v.ms| == 1) && forall i | 0 <= i < Width(v) :: Alone(Child(v, i))
  }

  // ----- values inside a document -----

  function WithChild(v: Value, i: nat, c: Value): (w: Value)
    requires i < Width(v)
    ensures Width(w) == Width(v) && (w.Object? <==> v.Object?)
    ensures forall k | 0 <= k < Width(v) :: Child(w, k) == if k == i then c else Child(v, k)
  {
    if v.Array? then Array(v.es[i := c]) else Object(v.ms[i := v.ms[i].(value := c)])
  }

  /** A position: the index at each level of a part that the rewriting enters. */
  type Position = seq<nat>

  predicate Reaches(v: Value, p: Position)
    decreases |p|
  {
    p == [] || (p[0] < Span(v) && Reaches(Child(v, p[0]), p[1..]))
  }

  function At(v: Value, p: Position): Value
    requires Reaches(v, p)
    decreases |p|
  {
    if p == [] then v else At(Child(v, p[0]), p[1..])
  }

  function Update(v: Value, p: Position, z: Value): Value
    requires Reaches(v, p)
    decreases |p|
  {
    if p == [] then z else WithChild(v, p[0], Update(Child(v, p[0]), p[1..], z))
  }

  /** Whether one value can stand for another without making or removing a reference. */
  predicate Alike(y: Value, z: Value) {
    (y.String? <==> z.String?) && (y.String? ==> y == z)
  }

  lemma WithChildRef(v: Value, i: nat, z: Value)
    requires i < Width(v) && Alike(Child(v, i), z)
    ensures RefOf(WithChild(v, i, z)) == RefOf(v) && Span(WithChild(v, i, z)) == Span(v)
  {
    if v.Object? { SameRefs(v.ms, WithChild(v, i, z).ms); }
  }

  lemma {:induction false} UpdateReaches(v: Value, p: Position, z: Value)
    requires Reaches(v, p) && Alike(At(v, p), z)
    ensures Reaches(Update(v, p, z), p) && At(Update(v, p, z), p) == z
    ensures Alike(v, Update(v, p, z))
    decreases |p|
  {
    if p != [] {
      var c := Child(v, p[0]);
      UpdateReaches(c, p[1..], z);
      WithChildRef(v, p[0], Update(c, p[1..], z));
    }
  }

  lemma {:induction false} UpdateTwice(v: Value, p: Position, a: Value, b: Value)
    requires Reaches(v, p) && Alike(At(v, p), a)
    ensures Reaches(Update(v, p, a), p) && Update(Update(v, p, a), p, b) == Update(v, p, b)
    decreases |p|
  {
    UpdateReaches(v, p, a);
    if p != [] {
      UpdateTwice(Child(v, p[0]), p[1..], a, b);
    }
  }

  lemma {:induction false} UpdateSame(v: Value, p: Position)
    requires Reaches(v, p)
    ensures Update(v, p, At(v, p)) == v
    decreases |p|
  {
    if p != [] {
      UpdateSame(Child(v, p[0]), p[1..]);
    }
  }

  /** A child's position. */
  lemma {:induction false} Deeper(v: Value, p: Position, i: nat, z: Value)
    requires Reaches(v, p) && i < Span(At(v, p))
    ensures Reaches(v, p + [i]) && At(v, p + [i]) == Child(At(v, p), i)
    ensures Update(v, p + [i], z) == Update(v, p, WithChild(At(v, p), i, z))
    decreases |p|
  {
    if p == [] {
      assert p + [i] == [i] && [i][1..] == [];
    } else {
      assert (p + [i])[1..] == p[1..] + [i];
      Deeper(Child(v, p[0]), p[1..], i, z);
    }
  }

  lemma {:induction false} GoodAt(g: Source, v: Value, n: nat, p: Position)
    requires Good(g, v, n) && Reaches(v, p)
    ensures Good(g, At(v, p), n)
    decreases |p|
  {
    if p != [] { GoodAt(g, Child(v, p[0]), n, p[1..]); }
  }

  /** Expanding a part expands the whole. */
  lemma {:induction false} PartialUpdate(g: Source, v: Value, n: nat, p: Position, z: Value)
    requires Acyclic(g) && Good(g, v, n) && Reaches(v, p) && Good(g, At(v, p), n) && Partial(g, At(v, p), n, z)
    ensures Partial(g, v, n, Update(v, p, z))
    decreases |p|
  {
    if p != [] {
      var i := p[0];
      PartialUpdate(g, Child(v, i), n, p[1..], z);
      PartialSelf(g, v, n);
    }
  }

  /** The first `k` children inlined. */
  ghost function Mixed(g: Source, v: Value, n: nat, k: nat): (w: Value)
    requires Acyclic(g) && Good(g, v, n) && k <= Span(v)
    ensures Width(w) == Width(v)
    decreases k
  {
    if k == 0 then v else WithChild(Mixed(g, v, n, k - 1), k - 1, Full(g, Child(v, k - 1), n))
  }

  lemma {:induction false} MixedChildren(g: Source, v: Value, n: nat, k: nat)
    requires Acyclic(g) && Good(g, v, n) && k <= Span(v)
    ensures var w := Mixed(g, v, n, k);
      (w.Object? <==> v.Object?) && (w.Array? <==> v.Array?) && (v.Object? ==> forall i | 0 <= i < |v.ms| :: w.ms[i].name == v.ms[i].name)
      && (!v.Array? && !v.Object? ==> w == v)
    ensures forall i | 0 <= i < Width(v) :: Child(Mixed(g, v, n, k), i) == if i < k then Full(g, Child(v, i), n) else Child(v, i)
    decreases k
  {
    hide Full, Good, Acyclic, RefOf;
    if k > 0 { MixedChildren(g, v, n, k - 1); }
  }

  lemma MixedIsFull(g: Source, v: Value, n: nat)
    requires Acyclic(g) && Good(g, v, n) && RefOf(v).None?
    ensures Mixed(g, v, n, Width(v)) == Full(g, v, n)
  {
    MixedChildren(g, v, n, Width(v));
    var w := Mixed(g, v, n, Width(v));
    if v.Array? {
      assert forall i | 0 <= i < |v.es| :: w.es[i] == Child(w, i);
    } else if v.Object? {
      assert forall i | 0 <= i < |v.ms| :: w.ms[i].value == Child(w, i);
    }
  }

  /** Inlining some children makes and removes no reference, and is an expansion. */
  lemma MixedSpreads(g: Source, v: Value, n: nat, k: nat)
    requires Acyclic(g) && Good(g, v, n) && k <= Span(v)
    ensures var w := Mixed(g, v, n, k);
      Spread(g, v, n, w) && RefOf(w) == RefOf(v) && Span(w) == Span(v) && Good(g, w, n) && Full(g, w, n) == Full(g, v, n)
  {
    var w := Mixed(g, v, n, k);
    MixedChildren(g, v, n, k);
    forall i | 0 <= i < Span(v) ensures Partial(g, Child(v, i), n, Child(w, i)) {
      if i < k { PartialFull(g, Child(v, i), n); } else { PartialSelf(g, Child(v, i), n); }
    }
    assert Spread(g, v, n, w);
    SpreadRef(g, v, n, w);
    PartialKeepsFull(g, v, n, w);
  }

  // ----- the rewriting itself -----

  lemma FullIsAlike(g: Source, v: Value, n: nat)
    requires Acyclic(g) && Good(g, v, n)
    ensures Alike(v, Full(g, v, n))
    ensures v.Object? ==> Full(g, v, n).Object?
    decreases n
  {
    if RefOf(v).Some? { FullIsAlike(g, Target(g, RefOf(v).value), g.rank[RefOf(v).value]); }
  }

  /** Inlining is an expansion. */
  lemma {:induction false} PartialFull(g: Source, v: Value, n: nat)
    requires Acyclic(g) && Good(g, v, n)
    ensures Partial(g, v, n, Full(g, v, n))
    decreases n, v
  {
    if RefOf(v).Some? {
      PartialFull(g, Target(g, RefOf(v).value), g.rank[RefOf(v).value]);
    } else {
      var y := Full(g, v, n);
      forall i | 0 <= i < Span(v) ensures Partial(g, Child(v, i), n, Child(y, i)) { PartialFull(g, Child(v, i), n); }
      assert Spread(g, v, n, y);
    }
  }

  class OASValidatorImp {
    var doc: Value

    constructor (doc: Value)
      ensures this.doc == doc
    {
      this.doc := doc;
    }

    /** The document as it stands, between the original `g.doc` and its inlining, and the
        position that is being rewritten. */
    ghost predicate Underway(g: Source, bound: nat, p: Position)
      reads this
    {
      Acyclic(g) && Good(g, g.doc, bound) && Partial(g, g.doc, bound, doc) && Reaches(doc, p)
    }

    /** Writing an expansion at `p` keeps the document between original and inlining. */
    method Write(p: Position, z: Value, ghost g: Source, ghost bound: nat, ghost n: nat)
      requires Underway(g, bound, p) && Good(g, At(doc, p), n) && Partial(g, At(doc, p), n, z) && Alike(At(doc, p), z)
      modifies this
      ensures Underway(g, bound, p) && doc == Update(old(doc), p, z) && At(doc, p) == z
    {
      PartialKeepsFull(g, g.doc, bound, doc);
      GoodAt(g, doc, bound, p);
      PartialAnyBound(g, At(doc, p), n, bound, z);
      PartialUpdate(g, doc, bound, p, z);
      PartialTwice(g, g.doc, bound, doc, Update(doc, p, z));
      UpdateReaches(doc, p, z);
      hide *;
      doc := Update(doc, p, z);
    }

    /** `ResolveReferences` of the value at `p`: what stands there is replaced by its
        inlining, and nothing else changes. */
    method ResolveReferences(p: Position, ghost g: Source, ghost bound: nat, ghost n: nat, ghost y: Value)
      requires Underway(g, bound, p) && At(doc, p) == y && Good(g, y, n)
      modifies this
      ensures Underway(g, bound, p) && doc == Update(old(doc), p, Full(g, y, n)) && At(doc, p) == Full(g, y, n)
      decreases n, y, 2
    {
      if At(doc, p).Object? {
        ghost var m: nat := n;
        var should_reiterate := true;
        UpdateSame(doc, p);
        while should_reiterate
          invariant Underway(g, bound, p) && m <= n && (m == n ==> At(doc, p) == y || !should_reiterate)
          invariant Alike(At(old(doc), p), At(doc, p)) && doc == Update(old(doc), p, At(doc, p))
          invariant should_reiterate ==> Good(g, At(doc, p), m) && At(doc, p).Object? && Full(g, At(doc, p), m) == Full(g, y, n)
          invariant !should_reiterate ==> At(doc, p) == Full(g, y, n)
          decreases should_reiterate, m
        {
          ghost var before := doc;
          should_reiterate, m := ResolveOnce(p, g, bound, m, At(doc, p));
          UpdateTwice(old(doc), p, At(before, p), At(doc, p));
        }
      } else {
        var _, _ := ResolveOnce(p, g, bound, n, y);
      }
    }

    /** The whole document: it ends as its inlining, in which no local reference is left. */
    method ResolveDocument(ghost g: Source, ghost bound: nat)
      requires g.doc == doc && Acyclic(g) && Good(g, doc, bound)
      modifies this
      ensures doc == Full(g, g.doc, bound) && RefFree(doc)
    {
      PartialSelf(g, doc, bound);
      ResolveReferences([], g, bound, bound, doc);
      FullIsRefFree(g, g.doc, bound);
    }

    /** One turn of the loop: the members of an object, or the elements of an array, are
        resolved one after the other, up to the first reference. That one replaces the whole
        object by its target as the document has it now. */
    method ResolveOnce(p: Position, ghost g: Source, ghost bound: nat, ghost n: nat, ghost y: Value)
      returns (again: bool, ghost m: nat)
      requires Underway(g, bound, p) && At(doc, p) == y && Good(g, y, n)
      modifies this
      ensures Underway(g, bound, p) && doc == Update(old(doc), p, At(doc, p)) && Alike(y, At(doc, p))
      ensures again ==>
        y.Object? && m < n && At(doc, p).Object? && Good(g, At(doc, p), m) && Full(g, At(doc, p), m) == Full(g, y, n)
      ensures !again ==> m == n && At(doc, p) == Full(g, y, n)
      decreases n, y, 1
    {
      hide Good, Partial, Spread, Full, Mixed, Update, At, Reaches, Acyclic, Lookup, Span, RefOf, IsLocalRef, PathOf, Child,
        Width, WithChild, Clear, Target, RefIndex, FirstRef, CString, Find;
      var i := 0;
      Enters(g, bound, p, n, y);
      while i < Width(At(doc, p))
        invariant Underway(g, bound, p) && 0 <= i <= Span(y)
        invariant At(doc, p) == Mixed(g, y, n, i) && doc == Update(old(doc), p, At(doc, p))
        decreases Span(y) - i
      {
        ghost var before := doc;
        var value := At(doc, p);
        AtMember(g, y, n, i);
        if value.Object? && IsLocalRef(value.ms[i]) {
          m := Replace(p, PathOf(value.ms[i]), g, bound, n, value);
          UpdateTwice(old(doc), p, value, At(doc, p));
          return true, m;
        }
        ResolveChild(p, i, g, bound, n, y, old(doc));
        i := i + 1;
      }
      AllDone(g, y, n, i);
      again, m := false, n;
    }

    lemma Enters(g: Source, bound: nat, p: Position, n: nat, y: Value)
      requires Underway(g, bound, p) && At(doc, p) == y && Good(g, y, n)
      ensures Acyclic(g) && Reaches(doc, p) && Mixed(g, y, n, 0) == y && doc == Update(doc, p, y)
    {
      UpdateSame(doc, p);
    }

    /** The next member or element. */
    method ResolveChild(p: Position, i: nat, ghost g: Source, ghost bound: nat, ghost n: nat, ghost y: Value, ghost first: Value)
      requires Underway(g, bound, p) && Good(g, y, n) && i < Span(y) && At(doc, p) == Mixed(g, y, n, i)
      requires Reaches(first, p) && At(first, p) == y && doc == Update(first, p, At(doc, p))
      modifies this
      ensures Underway(g, bound, p) && At(doc, p) == Mixed(g, y, n, i + 1) && doc == Update(first, p, At(doc, p))
      decreases n, y, 0
    {
      ghost var before := doc;
      ChildNow(g, y, n, i, doc, p);
      ResolveReferences(p + [i], g, bound, n, Child(y, i));
      ChildDone(g, y, n, i, first, before, doc, p);
    }

    /** The object at `p` becomes a copy of the target of its reference. */
    method Replace(p: Position, path: Path, ghost g: Source, ghost bound: nat, ghost n: nat, ghost value: Value)
      returns (ghost m: nat)
      requires Underway(g, bound, p) && At(doc, p) == value && Good(g, value, n) && RefOf(value) == Some(path)
      modifies this
      ensures Underway(g, bound, p) && doc == Update(old(doc), p, At(doc, p)) && Alike(value, At(doc, p))
      ensures m < n && At(doc, p).Object? && Good(g, At(doc, p), m) && Full(g, At(doc, p), m) == Full(g, value, n)
    {
      var ref_value := Lookup(doc, path);
      LookupNow(g, bound, doc, path);
      m := g.rank[path];
      Inlined(g, value, n, ref_value.value);
      hide *;
      Write(p, ref_value.value, g, bound, n);
    }
  }

  /** The first reference ends what the rewriting enters. */
  lemma AtReference(v: Value, i: nat)
    requires i <= Span(v)
    ensures i < Width(v) && !(v.Object? && IsLocalRef(v.ms[i])) ==> i < Span(v)
    ensures i < Width(v) && v.Object? && IsLocalRef(v.ms[i]) ==> RefOf(v) == Some(PathOf(v.ms[i]))
    ensures i == Width(v) ==> RefOf(v).None?
  {
  }

  /** What the loop finds at child `i`. */
  lemma AtMember(g: Source, y: Value, n: nat, i: nat)
    requires Acyclic(g) && Good(g, y, n) && i <= Span(y) && i < Width(Mixed(g, y, n, i))
    ensures var w := Mixed(g, y, n, i);
      && Alike(y, w) && (w.Object? <==> y.Object?) && Good(g, w, n) && Full(g, w, n) == Full(g, y, n)
      && (w.Object? ==> i < |w.ms|)
      && (if w.Object? && IsLocalRef(w.ms[i]) then RefOf(w) == Some(PathOf(w.ms[i])) else i < Span(y))
  {
    MixedSpreads(g, y, n, i);
    MixedChildren(g, y, n, i);
    AtReference(Mixed(g, y, n, i), i);
  }

  lemma AllDone(g: Source, y: Value, n: nat, i: nat)
    requires Acyclic(g) && Good(g, y, n) && i <= Span(y) && i >= Width(Mixed(g, y, n, i))
    ensures Mixed(g, y, n, i) == Full(g, y, n) && Alike(y, Full(g, y, n))
  {
    AtReference(y, i);
    MixedIsFull(g, y, n);
    FullIsAlike(g, y, n);
  }

  lemma LookupNow(g: Source, bound: nat, d: Value, path: Path)
    requires Acyclic(g) && Good(g, g.doc, bound) && Partial(g, g.doc, bound, d) && path in g.rank
    ensures var t, u, m := Target(g, path), Lookup(d, path), g.rank[path];
      u.Some? && u.value.Object? && Partial(g, t, m, u.value) && Good(g, u.value, m) && Full(g, u.value, m) == Full(g, t, m)
  {
    var t, m := Target(g, path), g.rank[path];
    LookupPartial(g, g.doc, bound, d, path);
    var u := Lookup(d, path).value;
    PartialAnyBound(g, t, bound, m, u);
    PartialKeepsFull(g, t, m, u);
    PartialKind(g, t, m, u);
  }

  /** A target, expanded or not, is an expansion of the reference to it. */
  lemma Inlined(g: Source, y: Value, n: nat, u: Value)
    requires Acyclic(g) && Good(g, y, n) && RefOf(y).Some? && u.Object?
    requires Partial(g, Target(g, RefOf(y).value), g.rank[RefOf(y).value], u)
    ensures Partial(g, y, n, u) && Alike(y, u)
    ensures Full(g, y, n) == Full(g, Target(g, RefOf(y).value), g.rank[RefOf(y).value])
  {
  }

  lemma ChildNow(g: Source, y: Value, n: nat, i: nat, d: Value, p: Position)
    requires Acyclic(g) && Good(g, y, n) && i < Span(y)
    requires Reaches(d, p) && At(d, p) == Mixed(g, y, n, i)
    ensures Span(At(d, p)) == Span(y)
    ensures Reaches(d, p + [i]) && At(d, p + [i]) == Child(y, i) && Good(g, Child(y, i), n)
  {
    MixedChildren(g, y, n, i);
    MixedSpreads(g, y, n, i);
    Deeper(d, p, i, Child(y, i));
  }

  lemma ChildDone(g: Source, y: Value, n: nat, i: nat, first: Value, before: Value, now: Value, p: Position)
    requires Acyclic(g) && Good(g, y, n) && i < Span(y)
    requires Reaches(first, p) && At(first, p) == y && Reaches(before, p) && At(before, p) == Mixed(g, y, n, i)
    requires before == Update(first, p, At(before, p))
    requires Reaches(before, p + [i]) && now == Update(before, p + [i], Full(g, Child(y, i), n))
    ensures Reaches(now, p) && At(now, p) == Mixed(g, y, n, i + 1) && now == Update(first, p, At(now, p))
  {
    var z := Full(g, Child(y, i), n);
    ChildNow(g, y, n, i, before, p);
    Deeper(before, p, i, z);
    var w := WithChild(At(before, p), i, z);
    assert w == Mixed(g, y, n, i + 1);
    MixedChildren(g, y, n, i);
    assert Alike(At(before, p), w);
    UpdateReaches(before, p, w);
    assert Alike(y, At(before, p));
    UpdateTwice(first, p, At(before, p), w);
  }

  /** No local reference anywhere. */
  predicate RefFree(v: Value)
    decreases v
  {
    RefOf(v).None? && forall i | 0 <= i < Width(v) :: RefFree(Child(v, i))
  }

  lemma {:induction false} FullIsRefFree(g: Source, v: Value, n: nat)
    requires Acyclic(g) && Good(g, v, n)
    ensures RefFree(Full(g, v, n))
    decreases n, v
  {
    if RefOf(v).Some? {
      FullIsRefFree(g, Target(g, RefOf(v).value), g.rank[RefOf(v).value]);
    } else {
      MixedIsFull(g, v, n);
      MixedSpreads(g, v, n, Width(v));
      MixedChildren(g, v, n, Width(v));
      forall i | 0 <= i < Width(v) ensures RefFree(Full(g, Child(v, i), n)) { FullIsRefFree(g, Child(v, i), n); }
    }
  }

  /** A document without local references is left as it is. */
  lemma {:induction false} FullOfRefFree(g: Source, v: Value, n: nat)
    requires Acyclic(g) && Good(g, v, n) && RefFree(v)
    ensures Full(g, v, n) == v
    decreases v
  {
    forall i | 0 <= i < Width(v) ensures Full(g, Child(v, i), n) == Child(v, i) { FullOfRefFree(g, Child(v, i), n); }
    if v.Array? {
      assert forall i | 0 <= i < |v.es| :: v.es[i] == Child(v, i);
    } else if v.Object? {
      assert forall i | 0 <= i < |v.ms| :: v.ms[i].value == Child(v, i);
    }
  }
}
