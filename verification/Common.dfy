/** Vocabulary shared by every component: code units, options and the two
    digit alphabets. */
module Common {

  datatype Option<+T> = None | Some(value: T)

  /** A code unit of a UTF-8 text, read as `unsigned char`. */
  type Byte = b: int | 0 <= b < 256

  type Bytes = seq<Byte>

  // ----- bytes with a meaning in several syntaxes -----

  const CLOSE_BRACE: Byte := '}' as int
  const COMMA: Byte := ',' as int
  const FALSE_TEXT: Bytes := ['f' as int, 'a' as int, 'l' as int, 's' as int, 'e' as int]
  const MINUS: Byte := '-' as int
  const OPEN_BRACE: Byte := '{' as int
  const PERCENT: Byte := '%' as int
  const POINT: Byte := '.' as int
  const PLUS: Byte := '+' as int
  const QUOTE: Byte := '\"' as int
  const SLASH: Byte := '/' as int
  const TILDE: Byte := '~' as int
  const TRUE_TEXT: Bytes := ['t' as int, 'r' as int, 'u' as int, 'e' as int]

  /** The bytes of a text of ASCII characters. */
  function Ascii(s: string): (t: Bytes)
    requires forall i | 0 <= i < |s| :: s[i] as int < 128
    ensures |t| == |s| && forall i | 0 <= i < |s| :: t[i] == s[i] as int
  {
    seq(|s|, i requires 0 <= i < |s| => s[i] as int)
  }

  /** What a zero-terminated stream shows at position `p`: the terminator at and
      past the end. */
  function Peek(s: Bytes, p: nat): Byte {
    if p < |s| then s[p] else 0
  }

  predicate IsDigit(c: Byte) {
    '0' as int <= c <= '9' as int
  }

  /** The value of a hexadecimal digit in either case. */
  function HexValue(c: Byte): (r: Option<nat>)
    ensures r.Some? ==> r.value < 16 && c != 0
  {
    if '0' as int <= c <= '9' as int then Some(c - '0' as int)
    else if 'A' as int <= c <= 'F' as int then Some(c - 'A' as int + 10)
    else if 'a' as int <= c <= 'f' as int then Some(c - 'a' as int + 10)
    else None
  }

  /** Upper-case hexadecimal digit of a nibble. */
  function HexDigit(n: nat): (c: Byte)
    requires n < 16
    ensures HexValue(c) == Some(n)
  {
    if n < 10 then '0' as int + n else 'A' as int + n - 10
  }

  /** The same by the codes of the characters in ASCII. */
  function HexDigitValue(c: Byte): (r: Option<nat>) {
    if 48 <= c <= 57 then Some(c - 48)
    else if 65 <= c <= 70 then Some(c - 55)
    else if 97 <= c <= 102 then Some(c - 87)
    else None
  }

  lemma SameDigits(c: Byte)
    ensures HexDigitValue(c) == HexValue(c)
  {
  }

  /** The number a run of decimal digits denotes, most significant digit first. */
  function DecValue(s: Bytes): nat
    requires forall i | 0 <= i < |s| :: IsDigit(s[i])
  {
    if s == [] then 0
    else
      assert IsDigit(s[|s| - 1]);
      DecValue(s[..|s| - 1]) * 10 + (s[|s| - 1] - '0' as int)
  }

  /** Canonical decimal text of a natural number. */
  function DecText(n: nat): (s: Bytes)
    ensures s != [] && forall i | 0 <= i < |s| :: IsDigit(s[i])
    ensures DecValue(s) == n
    ensures |s| > 1 ==> s[0] != '0' as int
    ensures n > 0 ==> s[0] != '0' as int
  {
    if n < 10 then [('0' as int + n) as Byte]
    else
      var t := DecText(n / 10);
      var r := t + [('0' as int + n % 10) as Byte];
      assert r[..|r| - 1] == t;
      r
  }

  /** Decimal text of an integer, with a leading minus sign when negative. */
  function IntText(i: int): Bytes {
    if i < 0 then ['-' as int] + DecText(-i) else DecText(i)
  }

  /** The first digit counts as often as the digits behind it have room. */
  lemma {:induction false} FirstDigit(c: Byte, t: Bytes)
    requires 0x30 <= c <= 0x39 && forall i | 0 <= i < |t| :: 0x30 <= t[i] <= 0x39
    ensures DecValue([c] + t) == (c - 0x30) * Pow(10, |t|) + DecValue(t)
    decreases |t|
  {
    if t == [] {
      assert [c] + t == [c] && [c][..0] == [];
    } else {
      var n := |t| - 1;
      assert ([c] + t)[..|t|] == [c] + t[..n] && ([c] + t)[|t|] == t[n];
      FirstDigit(c, t[..n]);
      TimesTen(c - 0x30, Pow(10, n));
    }
  }

  lemma TimesTen(d: int, p: int)
    ensures d * p * 10 == d * (10 * p)
  {
  }

  /** Powers, used for bounds on limb counts and digit strings. */
  function Pow(b: nat, e: nat): (p: nat)
    ensures b > 0 ==> p > 0
  {
    if e == 0 then 1 else b * Pow(b, e - 1)
  }

  // ----- sequences -----

  lemma Regrouped<T>(a: seq<T>, b: seq<T>, c: seq<T>)
    ensures a + b + c == a + (b + c)
  {
  }

  /** The first element of a name. */
  function FirstNamed<T>(ts: seq<T>, nameOf: T -> Bytes, name: Bytes): (r: Option<nat>)
    ensures match r
            case Some(k) => k < |ts| && nameOf(ts[k]) == name && forall i | 0 <= i < k :: nameOf(ts[i]) != name
            case None => forall i | 0 <= i < |ts| :: nameOf(ts[i]) != name
  {
    if ts == [] then None
    else if nameOf(ts[0]) == name then Some(0)
    else
      var r := FirstNamed(ts[1..], nameOf, name);
      if r.None? then None else Some(r.value + 1)
  }

  // ----- parts of a text -----

  /** `t` stands at `p`. */
  predicate Sits(s: Bytes, p: nat, t: Bytes) {
    p + |t| <= |s| && s[p..p + |t|] == t
  }

  lemma SitsAt(s: Bytes, p: nat, t: Bytes, k: nat)
    requires Sits(s, p, t) && k < |t|
    ensures s[p + k] == t[k]
  {
    assert s[p..p + |t|][k] == t[k];
  }

  lemma SitsBoth(s: Bytes, p: nat, a: Bytes, b: Bytes)
    requires Sits(s, p, a + b)
    ensures Sits(s, p, a) && Sits(s, p + |a|, b)
  {
    assert s[p..p + |a|] == (a + b)[..|a|];
    assert s[p + |a|..p + |a| + |b|] == (a + b)[|a|..];
  }

  /** End of the run of digits from `p` on. */
  function DigitsEnd(s: Bytes, p: nat): (q: nat)
    ensures p <= q && (p <= |s| ==> q <= |s|)
    ensures p <= |s| ==> forall i | p <= i < q :: IsDigit(s[i])
    ensures !IsDigit(Peek(s, q))
    decreases |s| - p
  {
    if p < |s| && IsDigit(s[p]) then DigitsEnd(s, p + 1) else p
  }

  lemma {:induction false} DigitsStop(s: Bytes, p: nat, q: nat)
    requires p <= q <= |s| && (forall i | p <= i < q :: IsDigit(s[i])) && !IsDigit(Peek(s, q))
    ensures DigitsEnd(s, p) == q
    decreases q - p
  {
    if p < q { DigitsStop(s, p + 1, q); }
  }
}
