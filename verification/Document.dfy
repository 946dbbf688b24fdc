/** `GenericDocument`: the tree a parser's events build on a stack. */
module Documents {
  import opened Common
  import opened Json

  /** A number in a value; handler calls carry 32- and 64-bit integers only. */
  function Integer(i: int): Value {
    if -0x8000_0000_0000_0000 <= i < 0x1_0000_0000_0000_0000 then Number(i) else Null
  }

  function Leaf(e: Event): Value
    requires IsScalarEvent(e)
  {
    match e
    case NullEv => Null
    case BoolEv(b) => Bool(b)
    case IntEv(i) => Integer(i)
    case UintEv(u) => Integer(u)
    case Int64Ev(i) => Integer(i)
    case Uint64Ev(u) => Integer(u)
    case DoubleEv(image) => Double(image)
    case StringEv(s) => String(s)
  }

  /** Names and values alternating on the stack, as members. */
  function Members(vs: seq<Value>): (ms: seq<Member>)
    ensures |ms| == |vs| / 2
  {
    if |vs| < 2 then []
    else
      var n := |vs|;
      var name := vs[n / 2 * 2 - 2];
      Members(vs[..n / 2 * 2 - 2]) + [Member(if name.String? then name.s else [], vs[n / 2 * 2 - 1])]
  }

  /** The top `n` values become the content of the container below them. */
  function Fold(st: seq<Value>, n: nat, isObject: bool): seq<Value> {
    if |st| < n + 1 then st
    else
      var content := st[|st| - n..];
      st[..|st| - n - 1] + [if isObject then Object(Members(content)) else Array(content)]
  }

  function Build(st: seq<Value>, e: Event): seq<Value> {
    if IsScalarEvent(e) then st + [Leaf(e)]
    else if e.StartObjectEv? then st + [Object([])]
    else if e.StartArrayEv? then st + [Array([])]
    else if e.KeyEv? then st + [String(e.s)]
    else if e.EndObjectEv? then Fold(st, 2 * e.memberCount, true)
    else if e.EndArrayEv? then Fold(st, e.elementCount, false)
    else st
  }

  function BuildAll(st: seq<Value>, es: seq<Event>): seq<Value> {
    if es == [] then st else Build(BuildAll(st, es[..|es| - 1]), es[|es| - 1])
  }

  lemma {:induction false} BuildAppend(st: seq<Value>, a: seq<Event>, b: seq<Event>)
    ensures BuildAll(st, a + b) == BuildAll(BuildAll(st, a), b)
  {
    if b == [] {
      assert a + b == a;
    } else {
      var n := |b| - 1;
      assert (a + b)[..|a| + n] == a + b[..n];
      BuildAppend(st, a, b[..n]);
    }
  }

  lemma BuildOne(st: seq<Value>, e: Event)
    ensures BuildAll(st, [e]) == Build(st, e)
  {
    assert [e][..0] == [];
  }

  // ----- integers by value -----

  /** The integer an event carries. */
  function IntegerOf(e: Event): Option<int> {
    match e
    case IntEv(i) => Some(i)
    case UintEv(u) => Some(u)
    case Int64Ev(i) => Some(i)
    case Uint64Ev(u) => Some(u)
    case _ => None
  }

  /** An event with its integer in the representation `Accept` chooses. */
  function Canonical(e: Event): Event {
    var i := IntegerOf(e);
    if i.None? then e
    else if -0x8000_0000_0000_0000 <= i.value < 0x1_0000_0000_0000_0000 then NumberEvent(i.value)
    else IntEv(i.value)
  }

  lemma CanonicalBuilds(st: seq<Value>, e: Event)
    ensures Build(st, Canonical(e)) == Build(st, e)
  {
  }

  function CanonicalAll(es: seq<Event>): (r: seq<Event>)
    ensures |r| == |es|
  {
    if es == [] then [] else CanonicalAll(es[..|es| - 1]) + [Canonical(es[|es| - 1])]
  }

  lemma {:induction false} CanonicalAppend(a: seq<Event>, b: seq<Event>)
    ensures CanonicalAll(a + b) == CanonicalAll(a) + CanonicalAll(b)
  {
    if b == [] {
      assert a + b == a;
    } else {
      var n := |b| - 1;
      assert (a + b)[..|a| + n] == a + b[..n];
      CanonicalAppend(a, b[..n]);
    }
  }

  lemma CanonicalOne(e: Event)
    ensures CanonicalAll([e]) == [Canonical(e)]
  {
    assert [e][..0] == [];
  }

  /** The tree does not depend on which representation carried an integer. */
  lemma {:induction false} CanonicalBuildsAll(st: seq<Value>, es: seq<Event>)
    ensures BuildAll(st, CanonicalAll(es)) == BuildAll(st, es)
  {
    if es != [] {
      var n := |es| - 1;
      CanonicalBuildsAll(st, es[..n]);
      CanonicalBuilds(BuildAll(st, es[..n]), es[n]);
      assert CanonicalAll(es)[..n] == CanonicalAll(es[..n]);
    }
  }

  // ----- the events of a value build it -----

  lemma {:induction false} BuildsValue(st: seq<Value>, j: Value)
    ensures BuildAll(st, Events(j)) == st + [j]
    decreases j, 1
  {
    if j.Array? {
      hide *;
      BuildsElements(st + [Array([])], j, |j.es|);
      ArrayBuilt(st, j);
    } else if j.Object? {
      hide *;
      BuildsMembers(st + [Object([])], j, |j.ms|);
      ObjectBuilt(st, j);
    } else {
      hide BuildAll;
      BuildOne(st, Events(j)[0]);
    }
  }

  lemma ArrayBuilt(st: seq<Value>, j: Value)
    requires j.Array? && BuildAll(st + [Array([])], ElementEvents(j, |j.es|)) == st + [Array([])] + j.es[..|j.es|]
    ensures BuildAll(st, Events(j)) == st + [j]
  {
    hide BuildAll, ElementEvents, Fold;
    BuildBetween(st, StartArrayEv, ElementEvents(j, |j.es|), EndArrayEv(|j.es|));
    FoldsArray(st, j.es);
    assert j.es[..|j.es|] == j.es;
  }

  lemma ObjectBuilt(st: seq<Value>, j: Value)
    requires j.Object? && BuildAll(st + [Object([])], MemberEvents(j, |j.ms|)) == st + [Object([])] + Flat(j.ms[..|j.ms|])
    ensures BuildAll(st, Events(j)) == st + [j]
  {
    hide BuildAll, MemberEvents, Fold, Flat;
    BuildBetween(st, StartObjectEv, MemberEvents(j, |j.ms|), EndObjectEv(|j.ms|));
    FoldsObject(st, j.ms);
    assert j.ms[..|j.ms|] == j.ms;
  }

  lemma BuildBetween(st: seq<Value>, start: Event, es: seq<Event>, end: Event)
    ensures BuildAll(st, [start] + es + [end]) == Build(BuildAll(Build(st, start), es), end)
  {
    BuildOne(st, start);
    BuildAppend(st, [start], es);
    BuildAppend(st, [start] + es, [end]);
    hide Build;
    BuildOne(BuildAll(Build(st, start), es), end);
  }

  lemma FoldsArray(st: seq<Value>, es: seq<Value>)
    ensures Fold(st + [Array([])] + es, |es|, false) == st + [Array(es)]
  {
    var all := st + [Array([])] + es;
    assert all[|st| + 1..] == es && all[..|st|] == st;
  }

  /** Members as the stack holds them: each name, then its value. */
  function Flat(ms: seq<Member>): (vs: seq<Value>)
    ensures |vs| == 2 * |ms|
  {
    if ms == [] then []
    else
      var m := ms[|ms| - 1];
      Flat(ms[..|ms| - 1]) + [String(m.name), m.value]
  }

  lemma {:induction false} MembersOfFlat(ms: seq<Member>)
    ensures Members(Flat(ms)) == ms
  {
    if ms != [] {
      hide *;
      var n := |ms| - 1;
      MembersOfFlat(ms[..n]);
      FlatStep(ms);
      MembersStep(Flat(ms[..n]), ms[n]);
      assert ms == ms[..n] + [ms[n]];
    }
  }

  lemma FlatStep(ms: seq<Member>)
    requires ms != []
    ensures var m := ms[|ms| - 1]; Flat(ms) == Flat(ms[..|ms| - 1]) + [String(m.name), m.value]
  {
  }

  lemma MembersStep(vs: seq<Value>, m: Member)
    requires |vs| % 2 == 0
    ensures Members(vs + [String(m.name), m.value]) == Members(vs) + [m]
  {
    hide *;
    var all := vs + [String(m.name), m.value];
    assert all[..|vs|] == vs;
    LastMember(all);
  }

  lemma LastMember(vs: seq<Value>)
    requires |vs| >= 2 && |vs| % 2 == 0
    ensures var n := |vs| - 2;
      Members(vs) == Members(vs[..n]) + [Member(if vs[n].String? then vs[n].s else [], vs[n + 1])]
  {
    assert |vs| / 2 * 2 == |vs|;
  }

  lemma FoldsObject(st: seq<Value>, ms: seq<Member>)
    ensures Fold(st + [Object([])] + Flat(ms), 2 * |ms|, true) == st + [Object(ms)]
  {
    var all := st + [Object([])] + Flat(ms);
    assert all[|st| + 1..] == Flat(ms) && all[..|st|] == st;
    MembersOfFlat(ms);
  }

  lemma {:induction false} BuildsElements(st: seq<Value>, j: Value, k: nat)
    requires j.Array? && k <= |j.es|
    ensures BuildAll(st, ElementEvents(j, k)) == st + j.es[..k]
    decreases j, 0, k
  {
    if k > 0 {
      hide *;
      BuildsElements(st, j, k - 1);
      BuildsValue(st + j.es[..k - 1], j.es[k - 1]);
      ElementEventsSplit(j, k);
      BuildAppend(st, ElementEvents(j, k - 1), Events(j.es[k - 1]));
      assert st + j.es[..k - 1] + [j.es[k - 1]] == st + j.es[..k];
    }
  }

  lemma {:induction false} BuildsMembers(st: seq<Value>, j: Value, k: nat)
    requires j.Object? && k <= |j.ms|
    ensures BuildAll(st, MemberEvents(j, k)) == st + Flat(j.ms[..k])
    decreases j, 0, k
  {
    if k > 0 {
      var m := j.ms[k - 1];
      var before := st + Flat(j.ms[..k - 1]);
      MemberFlat(st, j.ms, k);
      MemberEventsSplit(j, k);
      hide *;
      BuildsMembers(st, j, k - 1);
      BuildsPair(before, m);
      BuildAppend(st, MemberEvents(j, k - 1), [KeyEv(m.name)] + Events(m.value));
    }
  }

  lemma {:induction false} BuildsPair(st: seq<Value>, m: Member)
    ensures BuildAll(st, [KeyEv(m.name)] + Events(m.value)) == st + [String(m.name), m.value]
    decreases m, 2
  {
    BuildOne(st, KeyEv(m.name));
    BuildsValue(st + [String(m.name)], m.value);
    hide BuildAll, Events;
    BuildAppend(st, [KeyEv(m.name)], Events(m.value));
    assert st + [String(m.name)] + [m.value] == st + [String(m.name), m.value];
  }

  lemma MemberFlat(st: seq<Value>, ms: seq<Member>, k: nat)
    requires 0 < k <= |ms|
    ensures st + Flat(ms[..k]) == st + Flat(ms[..k - 1]) + [String(ms[k - 1].name), ms[k - 1].value]
  {
    assert ms[..k][..k - 1] == ms[..k - 1];
  }

  lemma MemberEventsSplit(j: Value, k: nat)
    requires j.Object? && 0 < k <= |j.ms|
    ensures MemberEvents(j, k) == MemberEvents(j, k - 1) + ([KeyEv(j.ms[k - 1].name)] + Events(j.ms[k - 1].value))
  {
    var m := j.ms[k - 1];
    assert MemberEvents(j, k) == MemberEvents(j, k - 1) + [KeyEv(m.name)] + Events(m.value);
    hide Events;
  }

  lemma ElementEventsSplit(j: Value, k: nat)
    requires j.Array? && 0 < k <= |j.es|
    ensures ElementEvents(j, k) == ElementEvents(j, k - 1) + Events(j.es[k - 1])
  {
    hide Events;
  }

  // ----- the document itself -----

  class GenericDocument {
    /** Values under construction; at the end the root, until it is moved out. */
    var stack_: seq<Value>
    /** The value the document is. */
    var root: Value

    constructor ()
      ensures stack_ == [] && root == Null
    {
      stack_, root := [], Null;
    }

    /** `Null`, `Bool`, the integers, `Double` and `String`. */
    method Scalar(e: Event)
      requires IsScalarEvent(e)
      modifies this
      ensures stack_ == Build(old(stack_), e) && root == old(root)
    {
      stack_ := stack_ + [Leaf(e)];
    }

    method StartObject()
      modifies this
      ensures stack_ == Build(old(stack_), StartObjectEv) && root == old(root)
    {
      stack_ := stack_ + [Object([])];
    }

    method Key(s: Bytes)
      modifies this
      ensures stack_ == Build(old(stack_), KeyEv(s)) && root == old(root)
    {
      stack_ := stack_ + [String(s)];
    }

    /** Pops the members, two values each, into the object below them. */
    method EndObject(memberCount: nat)
      requires |stack_| >= 2 * memberCount + 1
      modifies this
      ensures stack_ == Build(old(stack_), EndObjectEv(memberCount)) && root == old(root)
    {
      var n := |stack_| - 2 * memberCount;
      var members := Members(stack_[n..]);
      stack_ := stack_[..n];
      stack_ := stack_[n - 1 := Object(members)];
    }

    method StartArray()
      modifies this
      ensures stack_ == Build(old(stack_), StartArrayEv) && root == old(root)
    {
      stack_ := stack_ + [Array([])];
    }

    /** Pops the elements into the array below them. */
    method EndArray(elementCount: nat)
      requires |stack_| >= elementCount + 1
      modifies this
      ensures stack_ == Build(old(stack_), EndArrayEv(elementCount)) && root == old(root)
    {
      var n := |stack_| - elementCount;
      var elements := stack_[n..];
      stack_ := stack_[..n];
      stack_ := stack_[n - 1 := Array(elements)];
    }
  }
}
