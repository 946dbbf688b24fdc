/** The streaming machine computes the recursive meaning of the schema. */
module MachineProof {
  import opened Common
  import opened Json
  import opened Schema
  import opened Machine
  import Hasher

  // ----- runs -----

  lemma {:induction false} RunAppend(v: Validator, a: seq<Event>, b: seq<Event>)
    ensures Run(v, a + b) == Run(Run(v, a), b)
    decreases |a|
  {
    hide Step;
    if a == [] {
      assert a + b == b;
    } else {
      assert (a + b)[1..] == a[1..] + b;
      RunAppend(Step(v, a[0]), a[1..], b);
    }
  }

  lemma RunOne(v: Validator, e: Event)
    ensures Run(v, [e]) == Step(v, e)
  {
    hide Step;
    assert Run(Step(v, e), []) == Step(v, e);
  }

  lemma RunFirst(v: Validator, es: seq<Event>)
    requires es != []
    ensures Run(v, es) == Run(Step(v, es[0]), es[1..])
  {
  }

  lemma {:induction false} RunInvalid(v: Validator, es: seq<Event>)
    requires !v.valid
    ensures Run(v, es) == v
    decreases |es|
  {
    if es != [] { RunInvalid(v, es[1..]); }
  }

  /** An open context after it has seen a run of calls. */
  function Seen(c: Context, es: seq<Event>): Context {
    c.(hasher := match c.hasher case None => None case Some(h) => Some(Hasher.Run(h, es)),
       validators := seq(|c.validators|, i requires 0 <= i < |c.validators| => Run(c.validators[i], es)))
  }

  function SeenAll(cs: seq<Context>, es: seq<Event>): (r: seq<Context>)
    ensures |r| == |cs|
  {
    seq(|cs|, i requires 0 <= i < |cs| => Seen(cs[i], es))
  }

  lemma SeenOne(c: Context, e: Event)
    ensures Seen(c, [e]) == FeedContext(c, e)
  {
    hide Step, Hasher.Step;
    forall i | 0 <= i < |c.validators| ensures Run(c.validators[i], [e]) == Step(c.validators[i], e) {
      RunOne(c.validators[i], e);
    }
    assert Seen(c, [e]).validators == FeedContext(c, e).validators;
    if c.hasher.Some? {
      Hasher.RunSnoc(c.hasher.value, [], e);
      assert [] + [e] == [e];
    }
  }

  lemma SeenAppend(c: Context, a: seq<Event>, b: seq<Event>)
    ensures Seen(Seen(c, a), b) == Seen(c, a + b)
  {
    hide Step, Hasher.Step;
    forall i | 0 <= i < |c.validators| ensures Run(Run(c.validators[i], a), b) == Run(c.validators[i], a + b) {
      RunAppend(c.validators[i], a, b);
    }
    assert Seen(Seen(c, a), b).validators == Seen(c, a + b).validators;
    if c.hasher.Some? { Hasher.RunAppend(c.hasher.value, a, b); }
  }

  lemma SeenAllOne(cs: seq<Context>, e: Event)
    ensures SeenAll(cs, [e]) == Feed(cs, e)
  {
    hide Seen, FeedContext;
    forall i | 0 <= i < |cs| ensures Seen(cs[i], [e]) == FeedContext(cs[i], e) { SeenOne(cs[i], e); }
  }

  lemma SeenAllAppend(cs: seq<Context>, a: seq<Event>, b: seq<Event>)
    ensures SeenAll(SeenAll(cs, a), b) == SeenAll(cs, a + b)
  {
    hide Seen;
    forall i | 0 <= i < |cs| ensures Seen(Seen(cs[i], a), b) == Seen(cs[i], a + b) { SeenAppend(cs[i], a, b); }
  }

  lemma SeenAllConcat(a: seq<Context>, c: Context, es: seq<Event>)
    ensures SeenAll(a + [c], es) == SeenAll(a, es) + [Seen(c, es)]
  {
    hide Seen;
  }

  // ----- the context of an open value -----

  /** Whether a context of this schema hashes its value. */
  predicate Hashes(s: Schema, unique: bool) {
    s.enums != [] || unique
  }

  /** What the hasher and the sub-validators of a value's context hold after `pre`,
      the calls of the value so far. */
  function Live(s: Schema, unique: bool, doc: Bytes, pre: seq<Event>): Context {
    Blank(s, unique).(
      hasher := if Hashes(s, unique) then Some(Hasher.Run([], pre)) else None,
      validators := seq(SubCount(s), i requires 0 <= i < SubCount(s) => Run(Fresh(Sub(s, i), doc), pre)))
  }

  lemma OpenedIsLive(s: Schema, unique: bool, doc: Bytes, e: Event)
    requires BeginsValue(e)
    ensures Opened(s, unique, doc, e) ==
      if !StartCheck(s, e) then None
      else Some(Live(s, unique, doc, [e]).(
                propertyExist :=
                  if e.StartObjectEv? && HasRequired(s.properties) then Some(seq(|s.properties|, _ => false)) else None,
                inArray := e.StartArrayEv?))
  {
    hide StartCheck, Hasher.Step, HasRequired, Entered;
    forall i | 0 <= i < SubCount(s)
      ensures Run(Fresh(Sub(s, i), doc), [e]) == StepFresh(Sub(s, i), doc, e)
    {
      RunOne(Fresh(Sub(s, i), doc), e);
    }
    Hasher.RunSnoc([], [], e);
    assert [] + [e] == [e];
    if StartCheck(s, e) {
      assert Opened(s, unique, doc, e).value.validators == Live(s, unique, doc, [e]).validators;
    }
  }

  lemma LiveAppend(s: Schema, unique: bool, doc: Bytes, a: seq<Event>, b: seq<Event>)
    ensures Seen(Live(s, unique, doc, a), b) == Live(s, unique, doc, a + b)
  {
    hide Step, Hasher.Step, SubCount, Sub;
    forall i | 0 <= i < SubCount(s)
      ensures Run(Run(Fresh(Sub(s, i), doc), a), b) == Run(Fresh(Sub(s, i), doc), a + b)
    {
      RunAppend(Fresh(Sub(s, i), doc), a, b);
    }
    Hasher.RunAppend([], a, b);
    assert Seen(Live(s, unique, doc, a), b).validators == Live(s, unique, doc, a + b).validators;
  }

  /** The parallel sub-validators have decided their schemas on `j`. */
  ghost predicate SubsDecide(s: Schema, doc: Bytes, j: Value) {
    forall i | 0 <= i < SubCount(s) :: Run(Fresh(Sub(s, i), doc), Events(j)).valid <==> Valid(Sub(s, i), j)
  }

  lemma {:induction false} CountAll(vs: seq<Validator>, begin: nat, count: nat)
    requires begin + count <= |vs|
    ensures CountValid(vs, begin, count) <= count
    ensures CountValid(vs, begin, count) == count <==> forall i | begin <= i < begin + count :: vs[i].valid
    ensures CountValid(vs, begin, count) == 0 <==> forall i | begin <= i < begin + count :: !vs[i].valid
  {
    if count > 0 { CountAll(vs, begin, count - 1); }
  }

  ghost predicate Only(vs: seq<Validator>, begin: nat, count: nat, i: nat)
    requires begin + count <= |vs|
  {
    begin <= i < begin + count && vs[i].valid && forall k | begin <= k < begin + count && k != i :: !vs[k].valid
  }

  lemma {:induction false} CountOne(vs: seq<Validator>, begin: nat, count: nat)
    requires begin + count <= |vs|
    ensures CountValid(vs, begin, count) == 1 <==> exists i :: Only(vs, begin, count, i)
  {
    if count > 0 {
      CountOne(vs, begin, count - 1);
      CountAll(vs, begin, count - 1);
      var last := begin + count - 1;
      if CountValid(vs, begin, count) == 1 {
        if vs[last].valid {
          assert Only(vs, begin, count, last);
        } else {
          var i :| Only(vs, begin, count - 1, i);
          assert Only(vs, begin, count, i);
        }
      }
      if i: nat :| Only(vs, begin, count, i) {
        if i != last { assert Only(vs, begin, count - 1, i); }
      }
    }
  }

  /** An index range of the sub-validator table that has decided a list of schemas. */
  ghost predicate Decided(vs: seq<Validator>, begin: nat, list: seq<Schema>, j: Value)
    requires begin + |list| <= |vs|
  {
    forall i | begin <= i < begin + |list| :: vs[i].valid <==> Valid(list[i - begin], j)
  }

  lemma RangeAll(vs: seq<Validator>, begin: nat, list: seq<Schema>, j: Value)
    requires begin + |list| <= |vs| && Decided(vs, begin, list, j)
    ensures CountValid(vs, begin, |list|) == |list| <==> AllValid(list, j)
    ensures CountValid(vs, begin, |list|) > 0 <==> SomeValid(list, j)
  {
    hide Valid, CountValid;
    CountAll(vs, begin, |list|);
    forall i | 0 <= i < |list| ensures vs[begin + i].valid <==> Valid(list[i], j) {}
  }

  lemma RangeOne(vs: seq<Validator>, begin: nat, list: seq<Schema>, j: Value)
    requires begin + |list| <= |vs| && Decided(vs, begin, list, j)
    ensures CountValid(vs, begin, |list|) == 1 <==> OneValid(list, j)
  {
    hide Valid, CountValid;
    var n := |list|;
    CountOne(vs, begin, n);
    if i: nat :| Only(vs, begin, n, i) {
      forall k | 0 <= k < n && k != i - begin ensures !Valid(list[k], j) {
        assert !vs[begin + k].valid;
      }
      assert Valid(list[i - begin], j);
    }
    if i :| 0 <= i < n && Valid(list[i], j) && forall k | 0 <= k < n && k != i :: !Valid(list[k], j) {
      assert Only(vs, begin, n, begin + i);
    }
  }

  lemma EnumDecides(j: Value, top: Context)
    requires top.hasher.None? ==> top.schema.enums == []
    requires top.hasher.Some? ==> top.hasher.value == [Hasher.HashOf(j)]
    ensures EnumCheck(top) <==> InEnum(top.schema, j)
  {
    hide Hasher.HashOf;
  }

  lemma SubRanges(s: Schema)
    ensures forall i | 0 <= i < |s.allOf| :: Sub(s, i) == s.allOf[i]
    ensures forall i | |s.allOf| <= i < |s.allOf| + |s.anyOf| :: Sub(s, i) == s.anyOf[i - |s.allOf|]
    ensures forall i | |s.allOf| + |s.anyOf| <= i < |s.allOf| + |s.anyOf| + |s.oneOf| ::
      Sub(s, i) == s.oneOf[i - |s.allOf| - |s.anyOf|]
  {
  }

  lemma TableDecides(s: Schema, j: Value, vs: seq<Validator>)
    requires |vs| == SubCount(s)
    requires forall i | 0 <= i < SubCount(s) :: vs[i].valid <==> Valid(Sub(s, i), j)
    ensures TableCheck(s, vs) <==> CombinedOk(s, j)
  {
    hide Valid, CountValid, Sub, AllValid, SomeValid, OneValid, Decided;
    var a, n := |s.allOf|, |s.anyOf|;
    RangesDecided(s, j, vs);
    if s.notSchema.Some? { NotIsLast(s); }
    RangeAll(vs, 0, s.allOf, j);
    RangeAll(vs, a, s.anyOf, j);
    RangeOne(vs, a + n, s.oneOf, j);
  }

  lemma RangesDecided(s: Schema, j: Value, vs: seq<Validator>)
    requires |vs| == SubCount(s)
    requires forall i | 0 <= i < SubCount(s) :: vs[i].valid <==> Valid(Sub(s, i), j)
    ensures var a, n := |s.allOf|, |s.anyOf|;
      Decided(vs, 0, s.allOf, j) && Decided(vs, a, s.anyOf, j) && Decided(vs, a + n, s.oneOf, j)
  {
    hide Valid, Sub;
    SubRanges(s);
  }

  lemma NotIsLast(s: Schema)
    requires s.notSchema.Some?
    ensures SubCount(s) == |s.allOf| + |s.anyOf| + |s.oneOf| + 1
    ensures Sub(s, SubCount(s) - 1) == s.notSchema.value
  {
  }

  /** Once the sub-validators and the hasher have seen the whole value, the end check
      is exactly `enum`, `allOf`, `anyOf`, `oneOf` and `not`. */
  lemma EndCheckDecides(s: Schema, j: Value, top: Context)
    requires top.schema == s && |top.validators| == SubCount(s)
    requires top.hasher.None? ==> s.enums == []
    requires top.hasher.Some? ==> top.hasher.value == [Hasher.HashOf(j)]
    requires forall i | 0 <= i < SubCount(s) :: top.validators[i].valid <==> Valid(Sub(s, i), j)
    ensures EndValueCheck(top) <==> InEnum(s, j) && CombinedOk(s, j)
  {
    EnumDecides(j, top);
    TableDecides(s, j, top.validators);
    if SubCount(s) == 0 { NoSubs(s, j); }
    hide EnumCheck, InEnum, TableCheck, CombinedOk, Hasher.HashOf, Valid, Sub;
  }

  lemma NoSubs(s: Schema, j: Value)
    requires SubCount(s) == 0
    ensures CombinedOk(s, j)
  {
  }
}
