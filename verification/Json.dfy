/** JSON values as the DOM holds them and the handler events `Accept` sends for one. */
module Json {
  import opened Common

  /** Integers a DOM number can hold. */
  type Int64Or = n: int | -0x8000_0000_0000_0000 <= n < 0x1_0000_0000_0000_0000

  datatype Member = Member(name: Bytes, value: Value)

  /** A floating-point number is carried as its in-memory image, so that nothing here
      depends on floating-point arithmetic. */
  datatype Value =
    | Null
    | Bool(b: bool)
    | Number(n: Int64Or)
    | Double(image: Bytes)
    | String(s: Bytes)
    | Array(es: seq<Value>)
    | Object(ms: seq<Member>)

  /** Calls of the handler concept. */
  datatype Event =
    | NullEv
    | BoolEv(b: bool)
    | IntEv(i: int)
    | UintEv(u: nat)
    | Int64Ev(i: int)
    | Uint64Ev(u: nat)
    | DoubleEv(image: Bytes)
    | StringEv(s: Bytes)
    | StartObjectEv
    | KeyEv(s: Bytes)
    | EndObjectEv(memberCount: nat)
    | StartArrayEv
    | EndArrayEv(elementCount: nat)

  /** The handler call for a number: the first representation of `Accept`'s chain
      `IsInt`, `IsUint`, `IsInt64`, else `Uint64`. */
  function NumberEvent(n: Int64Or): Event {
    if -0x8000_0000 <= n < 0x8000_0000 then IntEv(n)
    else if 0 <= n < 0x1_0000_0000 then UintEv(n)
    else if n < 0x8000_0000_0000_0000 then Int64Ev(n)
    else Uint64Ev(n)
  }

  /** It holds the number, and those before it do not. */
  lemma FirstThatHolds(n: Int64Or)
    ensures match NumberEvent(n)
      case IntEv(i) => i == n && -2147483648 <= n <= 2147483647
      case UintEv(u) => u == n && 2147483647 < n <= 4294967295
      case Int64Ev(i) => i == n && -9223372036854775808 <= n <= 9223372036854775807 && !(-2147483648 <= n <= 4294967295)
      case Uint64Ev(u) => u == n && 9223372036854775807 < n <= 18446744073709551615
      case _ => false
  {
  }

  /** All events of a value, in order. */
  function Events(j: Value): (es: seq<Event>)
    ensures es != []
    decreases j, 1
  {
    match j
    case Null => [NullEv]
    case Bool(b) => [BoolEv(b)]
    case Number(n) => [NumberEvent(n)]
    case Double(d) => [DoubleEv(d)]
    case String(s) => [StringEv(s)]
    case Array(es) => [StartArrayEv] + ElementEvents(j, |es|) + [EndArrayEv(|es|)]
    case Object(ms) => [StartObjectEv] + MemberEvents(j, |ms|) + [EndObjectEv(|ms|)]
  }

  /** Events of the first `k` elements of an array. */
  function ElementEvents(j: Value, k: nat): seq<Event>
    requires j.Array? && k <= |j.es|
    decreases j, 0, k
  {
    if k == 0 then [] else ElementEvents(j, k - 1) + Events(j.es[k - 1])
  }

  /** Events of the first `k` members of an object. */
  function MemberEvents(j: Value, k: nat): seq<Event>
    requires j.Object? && k <= |j.ms|
    decreases j, 0, k
  {
    if k == 0 then []
    else MemberEvents(j, k - 1) + [KeyEv(j.ms[k - 1].name)] + Events(j.ms[k - 1].value)
  }

  predicate IsScalarEvent(e: Event) {
    !(e.StartObjectEv? || e.KeyEv? || e.EndObjectEv? || e.StartArrayEv? || e.EndArrayEv?)
  }
}
