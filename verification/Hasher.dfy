/** The event-driven structural hash of schema.h against a recursive hash of the value. */
module Hasher {
  import opened Common
  import opened Json

  /** A 64-bit hash word. */
  type Code = nat

  // ----- FNV-1a -----

  /** Bitwise exclusive or. */
  function Xor(a: Code, b: Code): Code {
    if a == 0 && b == 0 then 0 else (a + b) % 2 + 2 * Xor(a / 2, b / 2)
  }

  /** One step of FNV-1a on 64-bit words, with wrap-around. */
  function Mix(h: Code, d: Code): Code {
    Xor(h, d) * 0x100000001b3 % 0x1_0000_0000_0000_0000
  }

  function MixBytes(h: Code, data: Bytes): Code
    decreases |data|
  {
    if data == [] then h else MixBytes(Mix(h, data[0]), data[1..])
  }

  /** `WriteBuffer`: the hash of a tagged byte buffer. */
  function BufferHash(tag: Code, data: Bytes): Code {
    MixBytes(Mix(0xcbf29ce484222325, tag), data)
  }

  const NULL_TYPE: Code := 0
  const FALSE_TYPE: Code := 1
  const TRUE_TYPE: Code := 2
  const OBJECT_TYPE: Code := 3
  const ARRAY_TYPE: Code := 4
  const STRING_TYPE: Code := 5
  const NUMBER_TYPE: Code := 6

  function LittleEndian(n: nat, count: nat): Bytes {
    if count == 0 then [] else [n % 256] + LittleEndian(n / 256, count - 1)
  }

  function Log2(m: nat): nat
    requires m > 0
  {
    if m == 1 then 0 else 1 + Log2(m / 2)
  }

  /** `m / 2^shift`, rounded to nearest, ties to even. */
  function RoundedShift(m: nat, shift: nat): nat {
    var unit := Pow(2, shift);
    var q, r := m / unit, m % unit;
    if 2 * r > unit || (2 * r == unit && q % 2 == 1) then q + 1 else q
  }

  /** The binary64 pattern of an integer: sign, biased exponent, 52-bit fraction.
      A carry out of the fraction increments the exponent. */
  function DoublePattern(n: int): nat {
    var m := if n < 0 then -n else n;
    if m == 0 then 0
    else
      var e := Log2(m);
      var significand := if e <= 52 then m * Pow(2, 52 - e) else RoundedShift(m, e - 52);
      (if n < 0 then 0x8000_0000_0000_0000 else 0) + (e + 1022) * 0x10_0000_0000_0000 + significand
  }

  /** Memory image of the hasher's `Number` for an integer: the 64-bit integer,
      then the same number as a double. */
  function NumberImage(n: int): Bytes {
    LittleEndian(n % 0x1_0000_0000_0000_0000, 8) + LittleEndian(DoublePattern(n), 8)
  }

  // ----- the recursive hash -----

  function HashOf(j: Value): Code
    decreases j, 1
  {
    match j
    case Null => BufferHash(NULL_TYPE, [])
    case Bool(b) => BufferHash(if b then TRUE_TYPE else FALSE_TYPE, [])
    case Number(n) => BufferHash(NUMBER_TYPE, NumberImage(n))
    case Double(image) => BufferHash(NUMBER_TYPE, image)
    case String(s) => BufferHash(STRING_TYPE, s)
    case Array(es) => ElementsHash(j, |es|)
    case Object(ms) => Xor(Mix(0, OBJECT_TYPE), MembersHash(ms))
  }

  /** Order-sensitive hash of the first `k` elements. */
  function ElementsHash(j: Value, k: nat): Code
    requires j.Array? && k <= |j.es|
    decreases j, 0, k
  {
    if k == 0 then Mix(0, ARRAY_TYPE) else Mix(ElementsHash(j, k - 1), HashOf(j.es[k - 1]))
  }

  function MemberHash(m: Member): Code
    decreases m, 1
  {
    Mix(Mix(0, BufferHash(STRING_TYPE, m.name)), HashOf(m.value))
  }

  /** Order-insensitive hash of a member list. */
  function MembersHash(ms: seq<Member>): Code
    decreases ms, 2
  {
    if ms == [] then 0 else Xor(MemberHash(ms[0]), MembersHash(ms[1..]))
  }

  // ----- the event-driven hasher -----

  /** The hasher's stack after one handler call. Closing an object pops a name and
      a value hash per member; closing an array pops one hash per element. */
  function Step(stack: seq<Code>, e: Event): seq<Code> {
    match e
    case NullEv => stack + [BufferHash(NULL_TYPE, [])]
    case BoolEv(b) => stack + [BufferHash(if b then TRUE_TYPE else FALSE_TYPE, [])]
    case IntEv(i) => stack + [BufferHash(NUMBER_TYPE, NumberImage(i))]
    case UintEv(u) => stack + [BufferHash(NUMBER_TYPE, NumberImage(u))]
    case Int64Ev(i) => stack + [BufferHash(NUMBER_TYPE, NumberImage(i))]
    case Uint64Ev(u) => stack + [BufferHash(NUMBER_TYPE, NumberImage(u))]
    case DoubleEv(image) => stack + [BufferHash(NUMBER_TYPE, image)]
    case StringEv(s) => stack + [BufferHash(STRING_TYPE, s)]
    case KeyEv(s) => stack + [BufferHash(STRING_TYPE, s)]
    case StartObjectEv => stack
    case StartArrayEv => stack
    case EndObjectEv(n) =>
      if 2 * n > |stack| then stack
      else stack[..|stack| - 2 * n] + [FoldMembers(stack[|stack| - 2 * n..], n)]
    case EndArrayEv(n) =>
      if n > |stack| then stack
      else stack[..|stack| - n] + [FoldElements(stack[|stack| - n..], n)]
  }

  /** The xor loop of `EndObject` over the first `k` popped pairs. */
  function FoldMembers(kv: seq<Code>, k: nat): Code
    requires 2 * k <= |kv|
  {
    if k == 0 then Mix(0, OBJECT_TYPE)
    else Xor(FoldMembers(kv, k - 1), Mix(Mix(0, kv[2 * k - 2]), kv[2 * k - 1]))
  }

  /** The chained loop of `EndArray` over the first `k` popped hashes. */
  function FoldElements(e: seq<Code>, k: nat): Code
    requires k <= |e|
  {
    if k == 0 then Mix(0, ARRAY_TYPE) else Mix(FoldElements(e, k - 1), e[k - 1])
  }

  function Run(stack: seq<Code>, es: seq<Event>): seq<Code>
    decreases |es|
  {
    if es == [] then stack else Run(Step(stack, es[0]), es[1..])
  }

  lemma {:induction false} RunAppend(stack: seq<Code>, a: seq<Event>, b: seq<Event>)
    ensures Run(stack, a + b) == Run(Run(stack, a), b)
    decreases |a|
  {
    if a == [] {
      assert a + b == b;
    } else {
      assert (a + b)[1..] == a[1..] + b;
      RunAppend(Step(stack, a[0]), a[1..], b);
    }
  }

  /** Hashes the stack holds after the first `k` elements. */
  function ElementHashes(j: Value, k: nat): (hs: seq<Code>)
    requires j.Array? && k <= |j.es|
    ensures |hs| == k
  {
    if k == 0 then [] else ElementHashes(j, k - 1) + [HashOf(j.es[k - 1])]
  }

  /** Name and value hashes the stack holds after the first `k` members. */
  function PairHashes(j: Value, k: nat): (hs: seq<Code>)
    requires j.Object? && k <= |j.ms|
    ensures |hs| == 2 * k
  {
    if k == 0 then []
    else PairHashes(j, k - 1) + [BufferHash(STRING_TYPE, j.ms[k - 1].name), HashOf(j.ms[k - 1].value)]
  }

  lemma {:induction false} FoldElementsIsHash(j: Value, k: nat, tail: seq<Code>)
    requires j.Array? && k <= |j.es|
    ensures FoldElements(ElementHashes(j, k) + tail, k) == ElementsHash(j, k)
  {
    hide Mix, Xor, NumberImage;
    if k > 0 {
      var t := [HashOf(j.es[k - 1])] + tail;
      assert ElementHashes(j, k) + tail == ElementHashes(j, k - 1) + t;
      FoldElementsIsHash(j, k - 1, t);
    }
  }

  /** The algebra the member loop relies on: exclusive or is a commutative monoid. */
  lemma {:induction false} XorComm(a: Code, b: Code)
    ensures Xor(a, b) == Xor(b, a)
  {
    if a != 0 || b != 0 { XorComm(a / 2, b / 2); }
  }

  lemma {:induction false} XorZero(a: Code)
    ensures Xor(a, 0) == a == Xor(0, a)
  {
    if a != 0 { XorZero(a / 2); }
  }

  lemma HalfOf(parity: nat, half: nat)
    requires parity < 2
    ensures (parity + 2 * half) / 2 == half && (parity + 2 * half) % 2 == parity
  {
  }

  lemma ParityAdd(a: nat, b: nat)
    ensures (a + b) % 2 == (a % 2 + b % 2) % 2
  {
  }

  lemma XorUnfold(a: Code, b: Code)
    ensures Xor(a, b) == (a + b) % 2 + 2 * Xor(a / 2, b / 2)
  {
  }

  lemma XorHalves(a: Code, b: Code)
    ensures Xor(a, b) / 2 == Xor(a / 2, b / 2)
    ensures Xor(a, b) % 2 == (a % 2 + b % 2) % 2
  {
    hide Xor;
    XorUnfold(a, b);
    HalfOf((a + b) % 2, Xor(a / 2, b / 2));
    ParityAdd(a, b);
  }

  lemma SameHalves(x: nat, y: nat)
    requires x / 2 == y / 2 && x % 2 == y % 2
    ensures x == y
  {
  }

  lemma {:induction false} XorAssoc(a: Code, b: Code, c: Code)
    ensures Xor(Xor(a, b), c) == Xor(a, Xor(b, c))
    decreases a + b + c
  {
    hide Xor;
    if a + b + c == 0 {
      XorUnfold(0, 0);
    } else {
      XorHalves(a, b);
      XorHalves(b, c);
      XorHalves(Xor(a, b), c);
      XorHalves(a, Xor(b, c));
      XorAssoc(a / 2, b / 2, c / 2);
      ParityAssoc(a % 2, b % 2, c % 2);
      SameHalves(Xor(Xor(a, b), c), Xor(a, Xor(b, c)));
    }
  }

  lemma ParityAssoc(a: nat, b: nat, c: nat)
    requires a < 2 && b < 2 && c < 2
    ensures ((a + b) % 2 + c) % 2 == (a + (b + c) % 2) % 2
  {
  }

  lemma {:induction false} MembersHashSnoc(ms: seq<Member>, m: Member)
    ensures MembersHash(ms + [m]) == Xor(MembersHash(ms), MemberHash(m))
    decreases |ms|
  {
    hide Mix, Xor, NumberImage;
    if ms == [] {
      assert ([m])[1..] == [];
      XorZero(MemberHash(m));
    } else {
      assert (ms + [m])[1..] == ms[1..] + [m];
      MembersHashSnoc(ms[1..], m);
      XorAssoc(MemberHash(ms[0]), MembersHash(ms[1..]), MemberHash(m));
    }
  }

  lemma {:induction false} FoldMembersIsHash(j: Value, k: nat, tail: seq<Code>)
    requires j.Object? && k <= |j.ms|
    ensures FoldMembers(PairHashes(j, k) + tail, k) == Xor(Mix(0, OBJECT_TYPE), MembersHash(j.ms[..k]))
  {
    hide Mix, Xor, NumberImage;
    if k == 0 {
      XorZero(Mix(0, OBJECT_TYPE));
    } else {
      var m := j.ms[k - 1];
      var t := [BufferHash(STRING_TYPE, m.name), HashOf(m.value)] + tail;
      assert PairHashes(j, k) + tail == PairHashes(j, k - 1) + t;
      FoldMembersIsHash(j, k - 1, t);
      assert j.ms[..k] == j.ms[..k - 1] + [m];
      MembersHashSnoc(j.ms[..k - 1], m);
      XorAssoc(Mix(0, OBJECT_TYPE), MembersHash(j.ms[..k - 1]), MemberHash(m));
    }
  }

  lemma RunSnoc(stack: seq<Code>, es: seq<Event>, e: Event)
    ensures Run(stack, es + [e]) == Step(Run(stack, es), e)
  {
    RunAppend(stack, es, [e]);
    assert Run(Run(stack, es), [e]) == Run(Step(Run(stack, es), e), []);
  }

  /** Feeding a value's events pushes exactly one word, the recursive hash of the
      value, so `GetHashCode` finds its one entry after a whole value. */
  lemma {:induction false} RunIsHash(stack: seq<Code>, j: Value)
    ensures Run(stack, Events(j)) == stack + [HashOf(j)]
    decreases j, 1
  {
    if j.Array? {
      RunElements(stack, j, |j.es|);
      CloseArray(stack, j);
    } else if j.Object? {
      RunMembers(stack, j, |j.ms|);
      CloseObject(stack, j);
    } else {
      RunScalar(stack, j);
    }
  }

  lemma RunScalar(stack: seq<Code>, j: Value)
    requires !j.Array? && !j.Object?
    ensures Run(stack, Events(j)) == stack + [HashOf(j)]
  {
    hide Mix, Xor, NumberImage;
    RunSnoc(stack, [], Events(j)[0]);
  }

  lemma CloseArray(stack: seq<Code>, j: Value)
    requires j.Array?
    requires Run(stack, [StartArrayEv] + ElementEvents(j, |j.es|)) == stack + ElementHashes(j, |j.es|)
    ensures Run(stack, Events(j)) == stack + [HashOf(j)]
  {
    hide Mix, Xor, NumberImage;
    var n := |j.es|;
    var mid := stack + ElementHashes(j, n);
    FoldElementsIsHash(j, n, []);
    assert mid[..|stack|] == stack && mid[|stack|..] == ElementHashes(j, n) + [];
    RunSnoc(stack, [StartArrayEv] + ElementEvents(j, n), EndArrayEv(n));
  }

  lemma CloseObject(stack: seq<Code>, j: Value)
    requires j.Object?
    requires Run(stack, [StartObjectEv] + MemberEvents(j, |j.ms|)) == stack + PairHashes(j, |j.ms|)
    ensures Run(stack, Events(j)) == stack + [HashOf(j)]
  {
    hide Mix, Xor, NumberImage;
    var n := |j.ms|;
    var mid := stack + PairHashes(j, n);
    FoldMembersIsHash(j, n, []);
    assert mid[..|stack|] == stack && mid[|stack|..] == PairHashes(j, n) + [];
    assert j.ms[..n] == j.ms;
    RunSnoc(stack, [StartObjectEv] + MemberEvents(j, n), EndObjectEv(n));
  }

  lemma {:induction false} RunElements(stack: seq<Code>, j: Value, k: nat)
    requires j.Array? && k <= |j.es|
    ensures Run(stack, [StartArrayEv] + ElementEvents(j, k)) == stack + ElementHashes(j, k)
    decreases j, 0, k
  {
    hide Run, Step, Events, HashOf;
    if k == 0 {
      OpensRun(stack, StartArrayEv);
      assert stack + ElementHashes(j, 0) == stack && [StartArrayEv] + ElementEvents(j, 0) == [StartArrayEv];
    } else {
      RunElements(stack, j, k - 1);
      var before, pre := ElementHashes(j, k - 1), [StartArrayEv] + ElementEvents(j, k - 1);
      assert [StartArrayEv] + ElementEvents(j, k) == pre + Events(j.es[k - 1]);
      RunAppend(stack, pre, Events(j.es[k - 1]));
      RunIsHash(stack + before, j.es[k - 1]);
      Regrouped(stack, before, [HashOf(j.es[k - 1])]);
    }
  }

  lemma {:induction false} RunMembers(stack: seq<Code>, j: Value, k: nat)
    requires j.Object? && k <= |j.ms|
    ensures Run(stack, [StartObjectEv] + MemberEvents(j, k)) == stack + PairHashes(j, k)
    decreases j, 0, k
  {
    hide Run, Step, Events, HashOf;
    if k == 0 {
      OpensRun(stack, StartObjectEv);
      assert stack + PairHashes(j, 0) == stack && [StartObjectEv] + MemberEvents(j, 0) == [StartObjectEv];
    } else {
      RunMembers(stack, j, k - 1);
      var m, before := j.ms[k - 1], PairHashes(j, k - 1);
      var pre, name := [StartObjectEv] + MemberEvents(j, k - 1), BufferHash(STRING_TYPE, m.name);
      hide BufferHash;
      assert [StartObjectEv] + MemberEvents(j, k) == (pre + [KeyEv(m.name)]) + Events(m.value);
      RunAppend(stack, pre + [KeyEv(m.name)], Events(m.value));
      RunSnoc(stack, pre, KeyEv(m.name));
      KeyPushes(stack + before, m.name);
      RunIsHash(stack + before + [name], m.value);
      assert stack + before + [name] + [HashOf(m.value)] == stack + (before + [name, HashOf(m.value)]);
    }
  }

  lemma OpensRun(stack: seq<Code>, e: Event)
    requires e.StartArrayEv? || e.StartObjectEv?
    ensures Run(stack, [e]) == stack
  {
    RunSnoc(stack, [], e);
    assert [] + [e] == [e];
  }

  lemma KeyPushes(stack: seq<Code>, name: Bytes)
    ensures Step(stack, KeyEv(name)) == stack + [BufferHash(STRING_TYPE, name)]
  {
    hide BufferHash;
  }

  // ----- member order -----

  /** Equal up to the order of the members of any object, at any depth. */
  ghost predicate SameUpToOrder(a: Value, b: Value)
    decreases a, 1
  {
    match a
    case Array(es) => b.Array? && |b.es| == |es| && forall i | 0 <= i < |es| :: SameUpToOrder(es[i], b.es[i])
    case Object(ms) => b.Object? && SameMembers(ms, b.ms)
    case _ => a == b
  }

  /** Some reordering of `b` matches `a` member by member. */
  ghost predicate SameMembers(a: seq<Member>, b: seq<Member>)
    decreases a, 0
  {
    if a == [] then b == []
    else exists k | 0 <= k < |b| ::
      b[k].name == a[0].name && SameUpToOrder(a[0].value, b[k].value) && SameMembers(a[1..], b[..k] + b[k + 1..])
  }

  lemma {:induction false} MembersHashPick(ms: seq<Member>, k: nat)
    requires k < |ms|
    ensures MembersHash(ms) == Xor(MemberHash(ms[k]), MembersHash(ms[..k] + ms[k + 1..]))
    decreases k
  {
    hide Mix, Xor, NumberImage;
    if k == 0 {
      assert ms[..0] + ms[1..] == ms[1..];
    } else {
      MembersHashPick(ms[1..], k - 1);
      var rest := ms[..k] + ms[k + 1..];
      assert rest[1..] == ms[1..][..k - 1] + ms[1..][k..];
      XorAssoc(MemberHash(ms[0]), MemberHash(ms[k]), MembersHash(rest[1..]));
      XorComm(MemberHash(ms[0]), MemberHash(ms[k]));
      XorAssoc(MemberHash(ms[k]), MemberHash(ms[0]), MembersHash(rest[1..]));
    }
  }

  /** The hash does not depend on the order of members, at any depth. */
  lemma {:induction false} HashIgnoresOrder(a: Value, b: Value)
    requires SameUpToOrder(a, b)
    ensures HashOf(a) == HashOf(b)
    decreases a, 1
  {
    match a
    case Array(es) => ElementsIgnoreOrder(a, b, |es|);
    case Object(ms) => MembersIgnoreOrder(ms, b.ms);
    case _ =>
  }

  lemma {:induction false} ElementsIgnoreOrder(a: Value, b: Value, k: nat)
    requires a.Array? && SameUpToOrder(a, b) && k <= |a.es|
    ensures ElementsHash(a, k) == ElementsHash(b, k)
    decreases a, 0, k
  {
    if k > 0 {
      ElementsIgnoreOrder(a, b, k - 1);
      HashIgnoresOrder(a.es[k - 1], b.es[k - 1]);
    }
  }

  lemma {:induction false} MembersIgnoreOrder(a: seq<Member>, b: seq<Member>)
    requires SameMembers(a, b)
    ensures MembersHash(a) == MembersHash(b)
    decreases a, 0
  {
    hide Mix, Xor, NumberImage;
    if a != [] {
      var k :| 0 <= k < |b| && b[k].name == a[0].name && SameUpToOrder(a[0].value, b[k].value)
        && SameMembers(a[1..], b[..k] + b[k + 1..]);
      HashIgnoresOrder(a[0].value, b[k].value);
      MembersIgnoreOrder(a[1..], b[..k] + b[k + 1..]);
      MembersHashPick(b, k);
    }
  }

  // ----- members that cancel -----

  lemma {:induction false} XorSelf(a: Code)
    ensures Xor(a, a) == 0
  {
    if a != 0 { XorSelf(a / 2); }
  }

  /** Two identical members leave no trace in the hash of an object. */
  lemma IdenticalMembersCancel(m: Member, ms: seq<Member>)
    ensures HashOf(Object([m, m] + ms)) == HashOf(Object(ms))
  {
    var h, rest, two := MemberHash(m), MembersHash(ms), [m, m] + ms;
    TwiceHashed(m, ms);
    XorAssoc(h, h, rest);
    XorSelf(h);
    XorZero(rest);
    hide Xor, MembersHash, MemberHash, Mix;
  }

  lemma TwiceHashed(m: Member, ms: seq<Member>)
    ensures MembersHash([m, m] + ms) == Xor(MemberHash(m), Xor(MemberHash(m), MembersHash(ms)))
  {
    var two := [m, m] + ms;
    hide Xor, MemberHash;
    assert two[0] == m && two[1..] == [m] + ms && ([m] + ms)[0] == m && ([m] + ms)[1..] == ms;
  }

  // ----- there is always enough to pop -----

  predicate Poppable(stack: seq<Code>, e: Event) {
    (e.EndObjectEv? ==> 2 * e.memberCount <= |stack|) && (e.EndArrayEv? ==> e.elementCount <= |stack|)
  }

  predicate AllPoppable(stack: seq<Code>, es: seq<Event>)
    decreases |es|
  {
    es == [] || (Poppable(stack, es[0]) && AllPoppable(Step(stack, es[0]), es[1..]))
  }

  lemma {:induction false} PoppableAppend(stack: seq<Code>, a: seq<Event>, b: seq<Event>)
    ensures AllPoppable(stack, a + b) <==> AllPoppable(stack, a) && AllPoppable(Run(stack, a), b)
    decreases |a|
  {
    hide Step, Poppable;
    if a == [] {
      assert a + b == b;
    } else {
      assert (a + b)[1..] == a[1..] + b;
      PoppableAppend(Step(stack, a[0]), a[1..], b);
    }
  }

  lemma OnePoppable(stack: seq<Code>, e: Event)
    ensures AllPoppable(stack, [e]) <==> Poppable(stack, e)
  {
    hide Step, Poppable;
    assert AllPoppable(Step(stack, e), []);
  }

  /** Every closing call of a value finds the hashes of its container on the stack. */
  lemma {:induction false} ValuePoppable(stack: seq<Code>, j: Value)
    ensures AllPoppable(stack, Events(j))
    decreases j, 1
  {
    hide AllPoppable, Run, Step, Mix, Xor, NumberImage;
    if j.Array? {
      var n, pre := |j.es|, [StartArrayEv] + ElementEvents(j, |j.es|);
      assert Events(j) == pre + [EndArrayEv(n)];
      ElementsPoppable(stack, j, n);
      RunElements(stack, j, n);
      OnePoppable(Run(stack, pre), EndArrayEv(n));
      PoppableAppend(stack, pre, [EndArrayEv(n)]);
    } else if j.Object? {
      var n, pre := |j.ms|, [StartObjectEv] + MemberEvents(j, |j.ms|);
      assert Events(j) == pre + [EndObjectEv(n)];
      MembersPoppable(stack, j, n);
      RunMembers(stack, j, n);
      OnePoppable(Run(stack, pre), EndObjectEv(n));
      PoppableAppend(stack, pre, [EndObjectEv(n)]);
    } else {
      assert Events(j) == [Events(j)[0]];
      OnePoppable(stack, Events(j)[0]);
    }
  }

  lemma {:induction false} ElementsPoppable(stack: seq<Code>, j: Value, k: nat)
    requires j.Array? && k <= |j.es|
    ensures AllPoppable(stack, [StartArrayEv] + ElementEvents(j, k))
    decreases j, 0, k
  {
    hide AllPoppable, Run, Step;
    if k == 0 {
      assert [StartArrayEv] + ElementEvents(j, 0) == [StartArrayEv];
      OnePoppable(stack, StartArrayEv);
    } else {
      var pre := [StartArrayEv] + ElementEvents(j, k - 1);
      assert [StartArrayEv] + ElementEvents(j, k) == pre + Events(j.es[k - 1]);
      ElementsPoppable(stack, j, k - 1);
      ValuePoppable(Run(stack, pre), j.es[k - 1]);
      PoppableAppend(stack, pre, Events(j.es[k - 1]));
    }
  }

  lemma {:induction false} MembersPoppable(stack: seq<Code>, j: Value, k: nat)
    requires j.Object? && k <= |j.ms|
    ensures AllPoppable(stack, [StartObjectEv] + MemberEvents(j, k))
    decreases j, 0, k
  {
    hide AllPoppable, Run, Step;
    if k == 0 {
      assert [StartObjectEv] + MemberEvents(j, 0) == [StartObjectEv];
      OnePoppable(stack, StartObjectEv);
    } else {
      var m := j.ms[k - 1];
      var pre, key := [StartObjectEv] + MemberEvents(j, k - 1), [KeyEv(m.name)];
      assert [StartObjectEv] + MemberEvents(j, k) == pre + (key + Events(m.value));
      MembersPoppable(stack, j, k - 1);
      OnePoppable(Run(stack, pre), KeyEv(m.name));
      ValuePoppable(Run(Run(stack, pre), key), m.value);
      PoppableAppend(Run(stack, pre), key, Events(m.value));
      PoppableAppend(stack, pre, key + Events(m.value));
    }
  }

  // ----- the handler object -----

  /** The hasher as a handler: every call leaves the stack `Step` gives. */
  class EventHasher {
    var stack: seq<Code>

    constructor ()
      ensures stack == []
    {
      stack := [];
    }

    method WriteBuffer(tag: Code, data: Bytes)
      modifies this
      ensures stack == old(stack) + [BufferHash(tag, data)]
    {
      hide Mix;
      var h := Mix(0xcbf29ce484222325, tag);
      assert data[0..] == data;
      for i := 0 to |data|
        invariant stack == old(stack)
        invariant MixBytes(h, data[i..]) == BufferHash(tag, data)
      {
        assert data[i..][1..] == data[i + 1..];
        h := Mix(h, data[i]);
      }
      stack := stack + [h];
    }

    method EndObject(memberCount: nat)
      requires 2 * memberCount <= |stack|
      modifies this
      ensures stack == Step(old(stack), EndObjectEv(memberCount))
    {
      hide Mix, Xor;
      var h := Mix(0, OBJECT_TYPE);
      var base := |stack| - 2 * memberCount;
      var kv := stack[base..];
      stack := stack[..base];
      for i := 0 to memberCount
        invariant stack == old(stack)[..base]
        invariant h == FoldMembers(kv, i)
      {
        h := Xor(h, Mix(Mix(0, kv[i * 2]), kv[i * 2 + 1]));
      }
      stack := stack + [h];
    }

    method EndArray(elementCount: nat)
      requires elementCount <= |stack|
      modifies this
      ensures stack == Step(old(stack), EndArrayEv(elementCount))
    {
      hide Mix;
      var h := Mix(0, ARRAY_TYPE);
      var base := |stack| - elementCount;
      var e := stack[base..];
      stack := stack[..base];
      for i := 0 to elementCount
        invariant stack == old(stack)[..base]
        invariant h == FoldElements(e, i)
      {
        h := Mix(h, e[i]);
      }
      stack := stack + [h];
    }

    /** One handler call, with enough on the stack for a closing one to pop. */
    method Handle(e: Event)
      requires Poppable(stack, e)
      modifies this
      ensures stack == Step(old(stack), e)
    {
      hide Mix, Xor, NumberImage;
      match e
      case NullEv => WriteBuffer(NULL_TYPE, []);
      case BoolEv(b) => WriteBuffer(if b then TRUE_TYPE else FALSE_TYPE, []);
      case IntEv(i) => WriteBuffer(NUMBER_TYPE, NumberImage(i));
      case UintEv(u) => WriteBuffer(NUMBER_TYPE, NumberImage(u));
      case Int64Ev(i) => WriteBuffer(NUMBER_TYPE, NumberImage(i));
      case Uint64Ev(u) => WriteBuffer(NUMBER_TYPE, NumberImage(u));
      case DoubleEv(image) => WriteBuffer(NUMBER_TYPE, image);
      case StringEv(s) => WriteBuffer(STRING_TYPE, s);
      case KeyEv(s) => WriteBuffer(STRING_TYPE, s);
      case StartObjectEv =>
      case StartArrayEv =>
      case EndObjectEv(n) => EndObject(n);
      case EndArrayEv(n) => EndArray(n);
    }

    /** A whole value: none of its calls finds too little to pop, and its hash is what is
        left. */
    method Hash(j: Value) returns (code: Code)
      modifies this
      ensures stack == old(stack) + [HashOf(j)] && code == HashOf(j)
    {
      var es := Events(j);
      ghost var before := stack;
      ValuePoppable(stack, j);
      RunIsHash(stack, j);
      hide *;
      assert es[0..] == es;
      var i := 0;
      while i < |es|
        invariant 0 <= i <= |es| && AllPoppable(stack, es[i..]) && Run(stack, es[i..]) == Run(before, es)
      {
        RestPoppable(stack, es, i);
        Handle(es[i]);
        i := i + 1;
      }
      NothingRun(stack, es[i..]);
      code := stack[|stack| - 1];
    }

    static lemma RestPoppable(stack: seq<Code>, es: seq<Event>, i: nat)
      requires i < |es| && AllPoppable(stack, es[i..])
      ensures Poppable(stack, es[i]) && AllPoppable(Step(stack, es[i]), es[i + 1..])
      ensures Run(stack, es[i..]) == Run(Step(stack, es[i]), es[i + 1..])
    {
      hide Step, Poppable;
      assert es[i..][0] == es[i] && es[i..][1..] == es[i + 1..];
    }

    static lemma NothingRun(stack: seq<Code>, es: seq<Event>)
      requires es == []
      ensures Run(stack, es) == stack
    {
    }
  }
}
