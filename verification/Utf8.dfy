/** The UTF-8 codec of encodings.h over byte streams, against the grammar of section 4 of RFC 3629. */
module Utf8 {
  import opened Common
  import opened Streams

  /** A Unicode scalar value: any code point that is not a surrogate. */
  predicate IsScalar(cp: int) {
    0 <= cp <= 0x10FFFF && !(0xD800 <= cp <= 0xDFFF)
  }

  /** The code units `Encode` puts for a code point. */
  function Encoded(cp: nat): Bytes
    requires cp <= 0x10FFFF
  {
    if cp <= 0x7F then [cp]
    else if cp <= 0x7FF then [0xC0 + cp / 64, 0x80 + cp % 64]
    else if cp <= 0xFFFF then [0xE0 + cp / 4096, 0x80 + cp / 64 % 64, 0x80 + cp % 64]
    else [0xF0 + cp / 262144, 0x80 + cp / 4096 % 64, 0x80 + cp / 64 % 64, 0x80 + cp % 64]
  }

  /** Section 3 of RFC 3629: the bits of the character, from the first byte on. */
  lemma EncodedBits(cp: nat)
    requires cp <= 0x10FFFF
    ensures var t := Encoded(cp);
      && (|t| == 1 <==> cp < 128) && (|t| == 2 <==> 128 <= cp < 2048) && (|t| == 3 <==> 2048 <= cp < 65536)
      && (|t| == 1 ==> t[0] == cp)
      && (|t| == 2 ==> t[0] as int * 64 + t[1] == cp + 192 * 64 + 128)
      && (|t| == 3 ==> t[0] as int * 4096 + t[1] as int * 64 + t[2] == cp + 224 * 4096 + 128 * 64 + 128)
      && (|t| == 4 ==> t[0] as int * 262144 + t[1] as int * 4096 + t[2] as int * 64 + t[3] == cp + 240 * 262144 + 128 * 4096 + 128 * 64 + 128)
      && 1 <= |t| <= 4 && forall i | 0 < i < |t| :: 128 <= t[i] < 192
  {
    var a := cp / 64;
    var b := a / 64;
    assert cp == a * 64 + cp % 64 && a == b * 64 + a % 64 && b == b / 64 * 64 + b % 64;
    assert cp / 4096 == b && cp / 262144 == b / 64;
  }

  /** Character class of a byte. The three continuation classes are the single
      bits 0x10, 0x20 and 0x40; no other class has any of these bits. */
  function GetRange(c: Byte): nat {
    if c < 0x80 then 0
    else if c < 0x90 then 0x10
    else if c < 0xA0 then 0x40
    else if c < 0xC0 then 0x20
    else if c < 0xC2 then 8
    else if c < 0xE0 then 2
    else if c == 0xE0 then 10
    else if c == 0xED then 4
    else if c < 0xF0 then 3
    else if c == 0xF0 then 11
    else if c < 0xF4 then 6
    else if c == 0xF4 then 5
    else 8
  }

  /** The bitwise test `(GetRange(c) & mask) != 0`; the mask is written as the set
      of class bits it has. */
  predicate InRange(c: Byte, mask: set<nat>) {
    GetRange(c) in mask
  }

  /** Payload bits a lead byte of class `t` contributes: `(0xFF >> t) & c`. */
  function LeadBits(t: nat, c: Byte): nat {
    if t == 2 then c % 64
    else if t == 3 then c % 32
    else if t == 4 then c % 16
    else if t == 5 then c % 8
    else if t == 6 then c % 4
    else 0
  }

  datatype Decoded = Decoded(ok: bool, codepoint: nat, pos: nat)

  /** One continuation byte: shift in six bits and test its class. */
  function Tail(s: Bytes, d: Decoded, mask: set<nat>): Decoded {
    var c := Peek(s, d.pos);
    Decoded(d.ok && InRange(c, mask), d.codepoint * 64 + c % 64, d.pos + 1)
  }

  /** `Decode` at position `p` of a zero-terminated stream. */
  function DecodeAt(s: Bytes, p: nat): Decoded {
    var c := Peek(s, p);
    if c < 0x80 then Decoded(true, c, p + 1)
    else
      var t := GetRange(c);
      var d := Decoded(true, LeadBits(t, c), p + 1);
      if t == 2 then Tail(s, d, {0x10, 0x20, 0x40})
      else if t == 3 then Tail(s, Tail(s, d, {0x10, 0x20, 0x40}), {0x10, 0x20, 0x40})
      else if t == 4 then Tail(s, Tail(s, d, {0x10, 0x40}), {0x10, 0x20, 0x40})
      else if t == 5 then Tail(s, Tail(s, Tail(s, d, {0x10}), {0x10, 0x20, 0x40}), {0x10, 0x20, 0x40})
      else if t == 6 then Tail(s, Tail(s, Tail(s, d, {0x10, 0x20, 0x40}), {0x10, 0x20, 0x40}), {0x10, 0x20, 0x40})
      else if t == 10 then Tail(s, Tail(s, d, {0x20}), {0x10, 0x20, 0x40})
      else if t == 11 then Tail(s, Tail(s, Tail(s, d, {0x20, 0x40}), {0x10, 0x20, 0x40}), {0x10, 0x20, 0x40})
      else d.(ok := false)
  }

  /** The encoder in terms of the six-bit groups of the code point. */
  lemma Groups2(a: nat, b: nat)
    requires 2 <= a < 32 && b < 64
    ensures Encoded(a * 64 + b) == [0xC0 + a, 0x80 + b]
  {
  }

  lemma Groups3(a: nat, b: nat, c: nat)
    requires a < 16 && b < 64 && c < 64 && (a == 0 ==> 32 <= b)
    ensures Encoded((a * 64 + b) * 64 + c) == [0xE0 + a, 0x80 + b, 0x80 + c]
  {
    var cp := (a * 64 + b) * 64 + c;
    assert cp / 64 == a * 64 + b && cp / 4096 == a;
  }

  lemma Groups4(a: nat, b: nat, c: nat, d: nat)
    requires a <= 4 && b < 64 && c < 64 && d < 64 && (a == 0 ==> 16 <= b) && (a == 4 ==> b < 16)
    ensures Encoded(((a * 64 + b) * 64 + c) * 64 + d) == [0xF0 + a, 0x80 + b, 0x80 + c, 0x80 + d]
  {
    var cp := ((a * 64 + b) * 64 + c) * 64 + d;
    assert cp / 64 == (a * 64 + b) * 64 + c && cp / 4096 == a * 64 + b && cp / 262144 == a;
  }

  lemma Continuation(c: Byte)
    ensures InRange(c, {0x10, 0x20, 0x40}) <==> 0x80 <= c < 0xC0
    ensures 0x80 <= c < 0xC0 ==> c % 64 == c - 0x80
  {
  }

  /** What the decoder accepts, by lead byte: the rows of the UTF8-2, UTF8-3 and
      UTF8-4 rules of RFC 3629, and the code point as six-bit groups. */
  lemma Accepts2(s: Bytes, p: nat)
    requires 0x80 <= Peek(s, p) < 0xE0
    ensures var d := DecodeAt(s, p); var c, c1 := Peek(s, p), Peek(s, p + 1);
      && (d.ok <==> 0xC2 <= c && 0x80 <= c1 < 0xC0)
      && (d.ok ==> d.pos == p + 2 && d.codepoint == (c - 0xC0) * 64 + (c1 - 0x80))
  {
  }

  lemma Accepts3(s: Bytes, p: nat)
    requires 0xE0 <= Peek(s, p) < 0xF0
    ensures var d := DecodeAt(s, p);
      var c, c1, c2 := Peek(s, p), Peek(s, p + 1), Peek(s, p + 2);
      && (d.ok <==> 0x80 <= c1 < 0xC0 && 0x80 <= c2 < 0xC0
                    && (c == 0xE0 ==> 0xA0 <= c1) && (c == 0xED ==> c1 < 0xA0))
      && (d.ok ==> d.pos == p + 3
                   && d.codepoint == ((c - 0xE0) * 64 + (c1 - 0x80)) * 64 + (c2 - 0x80))
  {
  }

  lemma Accepts4(s: Bytes, p: nat)
    requires 0xF0 <= Peek(s, p)
    ensures var d := DecodeAt(s, p);
      var c, c1, c2, c3 := Peek(s, p), Peek(s, p + 1), Peek(s, p + 2), Peek(s, p + 3);
      && (d.ok <==> c <= 0xF4 && 0x80 <= c1 < 0xC0 && 0x80 <= c2 < 0xC0 && 0x80 <= c3 < 0xC0
                    && (c == 0xF0 ==> 0x90 <= c1) && (c == 0xF4 ==> c1 < 0x90))
      && (d.ok ==> d.pos == p + 4
                   && d.codepoint == (((c - 0xF0) * 64 + (c1 - 0x80)) * 64 + (c2 - 0x80)) * 64 + (c3 - 0x80))
  {
    Continuation(Peek(s, p + 1));
    Continuation(Peek(s, p + 2));
    Continuation(Peek(s, p + 3));
  }

  /** A successful decode consumed exactly the encoding of the scalar value it
      reports, and stayed inside the text. */
  lemma DecodeSound(s: Bytes, p: nat)
    requires p < |s| && DecodeAt(s, p).ok
    ensures var d := DecodeAt(s, p);
      IsScalar(d.codepoint) && p < d.pos <= |s| && s[p..d.pos] == Encoded(d.codepoint)
  {
    if s[p] < 0x80 {
    } else if s[p] < 0xE0 {
      Accepts2(s, p);
      Groups2(s[p] - 0xC0, s[p + 1] - 0x80);
    } else if s[p] < 0xF0 {
      Accepts3(s, p);
      Groups3(s[p] - 0xE0, s[p + 1] - 0x80, s[p + 2] - 0x80);
    } else {
      Accepts4(s, p);
      Groups4(s[p] - 0xF0, s[p + 1] - 0x80, s[p + 2] - 0x80, s[p + 3] - 0x80);
    }
  }

  /** Length of the `UTF8-char` of RFC 3629 that starts at `p`, zero if none does. */
  function CharLength(s: Bytes, p: nat): nat {
    var c, c1, c2, c3 := Peek(s, p), Peek(s, p + 1), Peek(s, p + 2), Peek(s, p + 3);
    if p >= |s| then 0
    else if c <= 0x7F then 1
    else if 0xC2 <= c <= 0xDF && IsTail(c1) then 2
    else if c == 0xE0 && 0xA0 <= c1 <= 0xBF && IsTail(c2) then 3
    else if 0xE1 <= c <= 0xEC && IsTail(c1) && IsTail(c2) then 3
    else if c == 0xED && 0x80 <= c1 <= 0x9F && IsTail(c2) then 3
    else if 0xEE <= c <= 0xEF && IsTail(c1) && IsTail(c2) then 3
    else if c == 0xF0 && 0x90 <= c1 <= 0xBF && IsTail(c2) && IsTail(c3) then 4
    else if 0xF1 <= c <= 0xF3 && IsTail(c1) && IsTail(c2) && IsTail(c3) then 4
    else if c == 0xF4 && 0x80 <= c1 <= 0x8F && IsTail(c2) && IsTail(c3) then 4
    else 0
  }

  predicate IsTail(c: Byte) {
    0x80 <= c <= 0xBF
  }

  /** `UTF8-octets`: the text from `p` on is a sequence of `UTF8-char`s. */
  predicate WellFormed(s: Bytes, p: nat)
    requires p <= |s|
    decreases |s| - p
  {
    p == |s| || (CharLength(s, p) > 0 && WellFormed(s, p + CharLength(s, p)))
  }

  /** The decoder accepts at a position exactly when the grammar has a character
      there, and consumes exactly that character. */
  lemma DecodeMatchesGrammar(s: Bytes, p: nat)
    requires p < |s|
    ensures DecodeAt(s, p).ok <==> CharLength(s, p) > 0
    ensures DecodeAt(s, p).ok ==> DecodeAt(s, p).pos == p + CharLength(s, p)
  {
    if s[p] < 0x80 {
    } else if s[p] < 0xE0 {
      Accepts2(s, p);
    } else if s[p] < 0xF0 {
      Accepts3(s, p);
    } else {
      Accepts4(s, p);
    }
  }

  lemma Complete3(s: Bytes, p: nat, a: nat, b: nat, c: nat)
    requires a < 16 && b < 64 && c < 64 && (a == 0 ==> 32 <= b) && (a == 13 ==> b < 32)
    requires Peek(s, p) == 0xE0 + a && Peek(s, p + 1) == 0x80 + b && Peek(s, p + 2) == 0x80 + c
    ensures DecodeAt(s, p) == Decoded(true, (a * 64 + b) * 64 + c, p + 3)
  {
    Accepts3(s, p);
  }

  lemma Complete4(s: Bytes, p: nat, a: nat, b: nat, c: nat, d: nat)
    requires a <= 4 && b < 64 && c < 64 && d < 64 && (a == 0 ==> 16 <= b) && (a == 4 ==> b < 16)
    requires Peek(s, p) == 0xF0 + a && Peek(s, p + 1) == 0x80 + b
    requires Peek(s, p + 2) == 0x80 + c && Peek(s, p + 3) == 0x80 + d
    ensures DecodeAt(s, p) == Decoded(true, ((a * 64 + b) * 64 + c) * 64 + d, p + 4)
  {
    Accepts4(s, p);
  }

  /** The six-bit groups of a code point. */
  lemma Regroup(cp: nat)
    ensures cp == cp / 64 * 64 + cp % 64
    ensures cp == (cp / 4096 * 64 + cp / 64 % 64) * 64 + cp % 64
    ensures cp == ((cp / 262144 * 64 + cp / 4096 % 64) * 64 + cp / 64 % 64) * 64 + cp % 64
  {
    assert cp / 4096 == cp / 64 / 64;
    assert cp / 262144 == cp / 4096 / 64;
  }

  /** Decoding at the encoding of a scalar value finds that value. */
  lemma DecodeComplete(s: Bytes, p: nat, cp: nat)
    requires IsScalar(cp) && p <= |s| && Encoded(cp) <= s[p..]
    ensures DecodeAt(s, p) == Decoded(true, cp, p + |Encoded(cp)|)
  {
    var e := Encoded(cp);
    assert forall i | 0 <= i < |e| :: e[i] == s[p + i];
    Regroup(cp);
    if cp <= 0x7F {
    } else if cp <= 0x7FF {
      Accepts2(s, p);
    } else if cp <= 0xFFFF {
      Complete3(s, p, cp / 4096, cp / 64 % 64, cp % 64);
    } else {
      Complete4(s, p, cp / 262144, cp / 4096 % 64, cp / 64 % 64, cp % 64);
    }
  }

  function EncodedAll(cps: seq<nat>): Bytes
    requires forall i | 0 <= i < |cps| :: IsScalar(cps[i])
  {
    if cps == [] then []
    else
      assert IsScalar(cps[0]);
      Encoded(cps[0]) + EncodedAll(cps[1..])
  }

  /** Repeated `Decode` from position `p` to the end of the text. */
  function DecodedAll(s: Bytes, p: nat): Option<seq<nat>>
    requires p <= |s|
    decreases |s| - p
  {
    if p == |s| then Some([])
    else
      var d := DecodeAt(s, p);
      if !d.ok then None
      else
        DecodeSound(s, p);
        match DecodedAll(s, d.pos)
        case None => None
        case Some(rest) => Some([d.codepoint] + rest)
  }

  /** Decoding inverts encoding on every sequence of scalar values. */
  lemma {:induction false} DecodeInvertsEncode(pre: Bytes, cps: seq<nat>)
    requires forall i | 0 <= i < |cps| :: IsScalar(cps[i])
    ensures DecodedAll(pre + EncodedAll(cps), |pre|) == Some(cps)
    decreases cps
  {
    var s := pre + EncodedAll(cps);
    if cps != [] {
      var e := Encoded(cps[0]);
      assert s == pre + e + EncodedAll(cps[1..]);
      assert s[|pre|..] == e + EncodedAll(cps[1..]);
      DecodeComplete(s, |pre|, cps[0]);
      DecodeInvertsEncode(pre + e, cps[1..]);
      assert cps == [cps[0]] + cps[1..];
    }
  }

  /** A text accepted to its end re-encodes to itself. */
  lemma {:induction false} EncodeInvertsDecode(s: Bytes, p: nat)
    requires p <= |s| && DecodedAll(s, p).Some?
    ensures var cps := DecodedAll(s, p).value;
      && (forall i | 0 <= i < |cps| :: IsScalar(cps[i]))
      && EncodedAll(cps) == s[p..]
    decreases |s| - p
  {
    if p < |s| {
      DecodeSound(s, p);
      var q := DecodeAt(s, p).pos;
      EncodeInvertsDecode(s, q);
      var cps := DecodedAll(s, p).value;
      assert cps[1..] == DecodedAll(s, q).value;
      assert s[p..] == s[p..q] + s[q..];
    }
  }

  /** The texts accepted by repeated decoding are exactly the language of RFC 3629. */
  lemma {:induction false} AcceptedLanguage(s: Bytes, p: nat)
    requires p <= |s|
    ensures DecodedAll(s, p).Some? <==> WellFormed(s, p)
    decreases |s| - p
  {
    if p < |s| {
      DecodeMatchesGrammar(s, p);
      if DecodeAt(s, p).ok {
        DecodeSound(s, p);
        AcceptedLanguage(s, DecodeAt(s, p).pos);
      }
    }
  }

  // ----- the stream code -----

  method Tail1(input: StringStream, codepoint: nat, mask: set<nat>, ok: bool) returns (result: bool, cp: nat)
    modifies input
    ensures Decoded(result, cp, input.pos) == Tail(input.text, Decoded(ok, codepoint, old(input.pos)), mask)
  {
    var c := input.Take();
    cp := codepoint * 64 + c % 64;
    result := ok && InRange(c, mask);
  }

  /** Takes one character from the stream. It succeeds exactly when the grammar
      has a character at the current position; the value is then the scalar value
      whose encoding was consumed. */
  method Decode(input: StringStream) returns (ok: bool, codepoint: nat)
    modifies input
    ensures Decoded(ok, codepoint, input.pos) == DecodeAt(input.text, old(input.pos))
    ensures old(input.pos) < |input.text| ==> (ok <==> CharLength(input.text, old(input.pos)) > 0)
    ensures old(input.pos) < |input.text| && ok ==>
      IsScalar(codepoint) && input.text[old(input.pos)..input.pos] == Encoded(codepoint)
  {
    ghost var p := input.pos;
    if p < |input.text| {
      DecodeMatchesGrammar(input.text, p);
      if DecodeAt(input.text, p).ok { DecodeSound(input.text, p); }
    }
    var c := input.Take();
    if c < 0x80 { return true, c; }
    var t := GetRange(c);
    ok, codepoint := true, LeadBits(t, c);
    if t == 2 {
      ok, codepoint := Tail1(input, codepoint, {0x10, 0x20, 0x40}, ok);
    } else if t == 3 || t == 4 || t == 10 {
      ok, codepoint := Tail1(input, codepoint, if t == 3 then {0x10, 0x20, 0x40} else if t == 4 then {0x10, 0x40} else {0x20}, ok);
      ok, codepoint := Tail1(input, codepoint, {0x10, 0x20, 0x40}, ok);
    } else if t == 5 || t == 6 || t == 11 {
      ok, codepoint := Tail1(input, codepoint, if t == 5 then {0x10} else if t == 6 then {0x10, 0x20, 0x40} else {0x20, 0x40}, ok);
      ok, codepoint := Tail1(input, codepoint, {0x10, 0x20, 0x40}, ok);
      ok, codepoint := Tail1(input, codepoint, {0x10, 0x20, 0x40}, ok);
    } else {
      ok := false;
    }
  }

  method Encode(os: OutputStream, cp: nat)
    requires cp <= 0x10FFFF
    modifies os
    ensures os.out == old(os.out) + Encoded(cp)
  {
    if cp <= 0x7F {
      os.Put(cp);
    } else if cp <= 0x7FF {
      os.Put(0xC0 + cp / 64);
      os.Put(0x80 + cp % 64);
    } else if cp <= 0xFFFF {
      os.Put(0xE0 + cp / 4096);
      os.Put(0x80 + cp / 64 % 64);
      os.Put(0x80 + cp % 64);
    } else {
      os.Put(0xF0 + cp / 262144);
      os.Put(0x80 + cp / 4096 % 64);
      os.Put(0x80 + cp / 64 % 64);
      os.Put(0x80 + cp % 64);
    }
  }

  /** Number of code points of a text, or nothing when it is not valid UTF-8. */
  method CountStringCodePoint(s: Bytes) returns (count: Option<nat>)
    ensures count.Some? <==> WellFormed(s, 0)
    ensures count.Some? ==>
      exists cps: seq<nat> :: |cps| == count.value
        && (forall i | 0 <= i < |cps| :: IsScalar(cps[i])) && EncodedAll(cps) == s
  {
    AcceptedLanguage(s, 0);
    var input := new StringStream(s);
    var n := 0;
    while input.pos < |s|
      invariant input.text == s && input.pos <= |s|
      invariant DecodedAll(s, 0).Some? <==> DecodedAll(s, input.pos).Some?
      invariant DecodedAll(s, 0).Some? ==> |DecodedAll(s, 0).value| == n + |DecodedAll(s, input.pos).value|
      decreases |s| - input.pos
    {
      if DecodeAt(s, input.pos).ok { DecodeSound(s, input.pos); }
      var ok, cp := Decode(input);
      if !ok { return None; }
      n := n + 1;
    }
    EncodeInvertsDecode(s, 0);
    assert s[0..] == s;
    count := Some(n);
  }
}
