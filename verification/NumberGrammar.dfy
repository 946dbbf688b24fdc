/** The literals `ParseNumber` accepts and what it reports, against section 6 of RFC 8259. */
module NumberGrammar {
  import opened Common
  import opened Digits
  import opened Json
  import opened Tokens

  predicate AreDigits(t: Bytes) {
    t != [] && forall i | 0 <= i < |t| :: '0' as int <= t[i] <= '9' as int
  }

  /** `int`: a zero, or digits without a leading zero. */
  predicate IsInt(t: Bytes) {
    AreDigits(t) && (|t| > 1 ==> t[0] != '0' as int)
  }

  /** `frac`, or nothing. */
  predicate IsFrac(t: Bytes) {
    t != [] ==> t[0] == '.' as int && AreDigits(t[1..])
  }

  /** `exp`, or nothing. */
  predicate IsExp(t: Bytes) {
    t != [] ==>
      (t[0] == 'e' as int || t[0] == 'E' as int) && |t| > 1 &&
      AreDigits(if t[1] == '+' as int || t[1] == '-' as int then t[2..] else t[1..])
  }

  /** A number by its parts. */
  datatype Literal = Literal(minus: bool, int_: Bytes, frac: Bytes, exp: Bytes)

  predicate IsNumber(n: Literal) {
    IsInt(n.int_) && IsFrac(n.frac) && IsExp(n.exp)
  }

  function LiteralText(n: Literal): Bytes {
    (if n.minus then ['-' as int] else []) + n.int_ + n.frac + n.exp
  }

  /** The integer an integer literal denotes. */
  function IntegerValue(n: Literal): int
    requires AreDigits(n.int_)
  {
    if n.minus then -(DecValue(n.int_) as int) else DecValue(n.int_)
  }

  /** An integer literal of 64 bits. */
  predicate IsInteger64(n: Literal)
    requires AreDigits(n.int_)
  {
    n.frac == [] && n.exp == [] && -0x8000_0000_0000_0000 <= IntegerValue(n) <= 0xFFFF_FFFF_FFFF_FFFF
  }

  /** The exponent without its sign. */
  function Exponent(n: Literal): nat
    requires IsExp(n.exp)
  {
    if n.exp == [] then 0 else DecValue(if n.exp[1] == '+' as int || n.exp[1] == '-' as int then n.exp[2..] else n.exp[1..])
  }

  predicate NegativeExponent(n: Literal)
    requires IsExp(n.exp)
  {
    n.exp != [] && n.exp[1] == '-' as int
  }

  /** What a number that ends at `end` is read as, when `folded` digits of its fraction scale
      the exponent. */
  function ReadsAs(n: Literal, p: nat, end: nat, folded: nat, convert: Converter): Outcome
    requires IsNumber(n)
  {
    if IsInteger64(n) then Done([IntegerEvent(n.minus, DecValue(n.int_))], end)
    else if !NegativeExponent(n) && Exponent(n) > 308 + folded then Failed([], NumberTooBig, p)
    else
      match convert(LiteralText(n))
      case None => Failed([], NumberTooBig, p)
      case Some(image) => Done([DoubleEv(image)], end)
  }

  lemma RunOfDigits(s: Bytes, p: nat)
    requires p <= |s| && IsDigit(Peek(s, p))
    ensures var q := DigitsEnd(s, p); p < q <= |s| && AreDigits(s[p..q])
  {
    EndAfterDigit(s, p);
    var q := DigitsEnd(s, p);
    forall i | 0 <= i < q - p
      ensures IsDigit(s[p..q][i])
    {
      assert IsDigit(s[p + i]);
    }
    hide DigitsEnd;
  }

  /** The integer part that is read. */
  lemma IntegerPartIs(s: Bytes, q: nat)
    requires q <= |s| && IsDigit(Peek(s, q))
    ensures var r := IntegerEnd(s, q); q < r <= |s| && IsInt(s[q..r])
  {
    RunOfDigits(s, q);
    hide DigitsEnd;
  }

  /** What is read of a fraction and an exponent. */
  lemma ExponentIs(s: Bytes, p: nat, minus: bool, n: nat, f: nat, folded: nat, isDouble: bool, convert: Converter)
    requires p <= f <= |s| && (!isDouble ==> !TooWide(minus, n)) && ExponentFrom(s, p, minus, n, f, folded, isDouble, convert).Done?
    ensures var o := ExponentFrom(s, p, minus, n, f, folded, isDouble, convert);
      f <= o.pos <= |s| && IsExp(s[f..o.pos]) && (o.pos > f || isDouble ==> |o.events| == 1 && o.events[0].DoubleEv?)
      && (o.pos == f && !isDouble ==> o.events == [IntegerEvent(minus, n)])
      && (if o.pos == f then Peek(s, f) != 'e' as int && Peek(s, f) != 'E' as int else !IsDigit(Peek(s, o.pos)))
  {
    hide IntegerEvent, DigitsEnd, DigitsValue;
    if Peek(s, f) == 'e' as int || Peek(s, f) == 'E' as int {
      var sign := Peek(s, f + 1);
      var g := if sign == PLUS || sign == MINUS then f + 2 else f + 1;
      if IsDigit(Peek(s, g)) {
        RunOfDigits(s, g);
        var e := s[f..DigitsEnd(s, g)];
        assert e[0] == Peek(s, f) && e[1] == sign && e[g - f..] == s[g..DigitsEnd(s, g)];
      }
    } else {
      assert s[f..f] == [];
    }
  }

  /** Every accepted literal is a number of the grammar. An integer literal that fits its
      64-bit range is reported with exactly its value, in the first representation that
      holds it; every other literal is a double. */
  lemma NumberSound(s: Bytes, p: nat, convert: Converter) returns (n: Literal)
    requires p <= |s| && NumberAt(s, p, convert).Done?
    ensures var o := NumberAt(s, p, convert);
      && IsNumber(n) && p < o.pos <= |s| && LiteralText(n) == s[p..o.pos] && |o.events| == 1
      && (o.events[0].DoubleEv? <==> n.frac != [] || n.exp != [] || TooWide(n.minus, DecValue(n.int_)))
      && (!o.events[0].DoubleEv? ==> Reports(o.events[0], n.minus, IntegerValue(n)))
      && !Continues(n, Peek(s, o.pos))
  {
    var q, r := NumberUnfolds(s, p, convert);
    var minus := Peek(s, p) == MINUS;
    hide *;
    var f := FractionSound(s, p, minus, q, r, convert);
    n := Literal(minus, s[q..r], s[r..f], s[f..NumberAt(s, p, convert).pos]);
    ValueOfSlice(s, q, r);
    PartsJoin(s, p, q, r, f, NumberAt(s, p, convert).pos, n);
    LiteralReported(minus, DigitsValue(s, q, r), n, NumberAt(s, p, convert).events[0]);
    IsWhole(n);
    Ended(s, n, q, r, f, NumberAt(s, p, convert).pos);
  }

  lemma Ended(s: Bytes, n: Literal, q: nat, r: nat, f: nat, e: nat)
    requires q < r <= f <= e <= |s| && n.int_ == s[q..r] && n.frac == s[r..f] && n.exp == s[f..e]
    requires s[q..r] == ['0' as int] || !IsDigit(Peek(s, r))
    requires f == r ==> Peek(s, r) != POINT
    requires f > r ==> !IsDigit(Peek(s, f))
    requires if e == f then Peek(s, f) != 'e' as int && Peek(s, f) != 'E' as int else !IsDigit(Peek(s, e))
    ensures !Continues(n, Peek(s, e))
  {
  }

  lemma IsWhole(n: Literal)
    ensures IsNumber(n) <==> IsInt(n.int_) && IsFrac(n.frac) && IsExp(n.exp)
  {
  }

  lemma LiteralReported(minus: bool, v: nat, n: Literal, e: Event)
    requires n.minus == minus && AreDigits(n.int_) && DecValue(n.int_) == v
    requires !e.DoubleEv? ==> e == IntegerEvent(minus, v) && !TooWide(minus, v)
    ensures !e.DoubleEv? ==> Reports(e, n.minus, IntegerValue(n))
  {
    if !TooWide(minus, v) { IntegerReported(minus, v); }
    hide DecValue;
  }

  lemma NumberUnfolds(s: Bytes, p: nat, convert: Converter) returns (q: nat, r: nat)
    requires p <= |s| && NumberAt(s, p, convert).Done?
    ensures if Peek(s, p) == MINUS then q == p + 1 && p < |s| && s[p] == MINUS else q == p
    ensures q < r <= |s| && AllDigits(s, q, r) && AreDigits(s[q..r]) && IsInt(s[q..r])
    ensures forall i | q <= i < r :: IsDigit(s[i])
    ensures NumberAt(s, p, convert) == FractionFrom(s, p, Peek(s, p) == MINUS, q, r, convert)
    ensures s[q..r] == ['0' as int] || !IsDigit(Peek(s, r))
  {
    q := if Peek(s, p) == MINUS then p + 1 else p;
    r := IntegerEnd(s, q);
    IntegerPartIs(s, q);
    hide FractionFrom, DigitsEnd, IntegerEnd;
  }

  /** What follows the integer part: where the fraction ends, and what is reported. */
  lemma FractionSound(s: Bytes, p: nat, minus: bool, q: nat, r: nat, convert: Converter) returns (f: nat)
    requires p <= q < r <= |s| && (forall i | q <= i < r :: IsDigit(s[i])) && FractionFrom(s, p, minus, q, r, convert).Done?
    ensures var o, v := FractionFrom(s, p, minus, q, r, convert), DigitsValue(s, q, r);
      && r <= f <= o.pos <= |s| && IsFrac(s[r..f]) && IsExp(s[f..o.pos]) && |o.events| == 1
      && (o.events[0].DoubleEv? <==> f > r || o.pos > f || TooWide(minus, v))
      && (!o.events[0].DoubleEv? ==> o.events[0] == IntegerEvent(minus, v) && !TooWide(minus, v))
      && (if f == r then Peek(s, r) != POINT else !IsDigit(Peek(s, f)))
      && (if o.pos == f then Peek(s, f) != 'e' as int && Peek(s, f) != 'E' as int else !IsDigit(Peek(s, o.pos)))
  {
    var v := DigitsValue(s, q, r);
    hide DigitsEnd, ExponentFrom, FoldedFraction, DigitsValue, TooWide;
    if Peek(s, r) == POINT {
      RunOfDigits(s, r + 1);
      f := DigitsEnd(s, r + 1);
      assert s[r..f][0] == POINT && s[r..f][1..] == s[r + 1..f];
      ExponentIs(s, p, minus, v, f, FoldedFraction(s, r + 1, v, r - q, TooWide(minus, v)), true, convert);
    } else {
      f := r;
      assert s[r..f] == [];
      ExponentIs(s, p, minus, v, f, 0, TooWide(minus, v), convert);
    }
    IntegerIsNoDouble(minus, v);
    hide IntegerEvent;
  }

  lemma IntegerIsNoDouble(minus: bool, n: nat)
    ensures !IntegerEvent(minus, n).DoubleEv?
  {
  }

  lemma ValueOfSlice(s: Bytes, q: nat, r: nat)
    requires AllDigits(s, q, r)
    ensures DecValue(s[q..r]) == DigitsValue(s, q, r)
  {
  }

  lemma PartsJoin(s: Bytes, p: nat, q: nat, r: nat, f: nat, e: nat, n: Literal)
    requires p <= q <= r <= f <= e <= |s| && (if n.minus then q == p + 1 && s[p] == MINUS else q == p)
    requires n.int_ == s[q..r] && n.frac == s[r..f] && n.exp == s[f..e]
    ensures LiteralText(n) == s[p..e]
  {
    var sign: Bytes := if n.minus then ['-' as int] else [];
    assert s[p..q] == sign;
    assert s[p..r] == s[p..q] + s[q..r];
    assert s[p..f] == s[p..r] + s[r..f];
    assert s[p..e] == s[p..f] + s[f..e];
  }

  /** The event that reports an integer: `Uint` and `Uint64` for literals without a sign,
      `Int` and `Int64` behind a minus sign, each only when the narrower one cannot. */
  predicate Reports(e: Event, minus: bool, i: int) {
    if !minus then
      if i <= 0xFFFF_FFFF then e.UintEv? && e.u == i else e.Uint64Ev? && e.u == i && i <= 0xFFFF_FFFF_FFFF_FFFF
    else
      if i >= -0x8000_0000 then e.IntEv? && e.i == i else e.Int64Ev? && e.i == i && i >= -0x8000_0000_0000_0000
  }

  lemma IntegerReported(minus: bool, n: nat)
    requires !TooWide(minus, n)
    ensures Reports(IntegerEvent(minus, n), minus, if minus then -(n as int) else n)
  {
  }

  // ----- every literal is read to its end -----

  /** A byte that continues a literal, so that it could not have ended there. Behind a zero
      that is the whole integer part, a digit does not. */
  predicate Continues(n: Literal, c: Byte) {
    (IsDigit(c) && !(n.int_ == ['0' as int] && n.frac == [] && n.exp == [])) || (n.exp == [] && (c == 'e' as int || c == 'E' as int)) || (n.exp == [] && n.frac == [] && c == POINT)
  }

  /** Every number of the grammar is read up to its very end: an integer of 64 bits as the
      integer it is, and any other as the double its text is converted to, unless its exponent
      exceeds 308 by more than the digits of its fraction that scale it (all of them, where there
      are at most eighteen digits), or its conversion overflows. */
  lemma NumberComplete(s: Bytes, p: nat, n: Literal, convert: Converter) returns (folded: nat)
    requires IsNumber(n) && p + |LiteralText(n)| <= |s| && s[p..p + |LiteralText(n)|] == LiteralText(n)
    requires !Continues(n, Peek(s, p + |LiteralText(n)|))
    ensures folded == 0 || folded < |n.frac|
    ensures n.frac != [] && |n.int_| + |n.frac| <= 19 ==> folded == |n.frac| - 1
    ensures NumberAt(s, p, convert) == ReadsAs(n, p, p + |LiteralText(n)|, folded, convert)
  {
    hide LiteralText, Continues, IsFrac, IsExp, ReadsAs, NumberAt, ExponentFrom, IsInteger64, Exponent, NegativeExponent,
         IntegerEvent, DecValue;
    var q := if n.minus then p + 1 else p;
    var r := q + |n.int_|;
    var f := r + |n.frac|;
    PartsAt(s, p, n);
    NoneContinues(s, n, r, f);
    IntegerStops(s, q, r, n);
    FractionStops(s, r, f, n);
    folded := AfterParts(s, p, n, q, r, f, convert);
    ExponentStops(s, p, n, f, convert, folded);
    IntegerFits(n);
    ReadsAsParts(n, p, f + |n.exp|, folded, convert);
    DoubleOfLiteral(s, p, n, convert);
  }

  /** Where the parts of a literal stand. */
  lemma PartsAt(s: Bytes, p: nat, n: Literal)
    requires p + |LiteralText(n)| <= |s| && s[p..p + |LiteralText(n)|] == LiteralText(n)
    ensures var q := if n.minus then p + 1 else p;
      var r := q + |n.int_|;
      var f := r + |n.frac|;
      && f + |n.exp| == p + |LiteralText(n)| && (n.minus ==> s[p] == MINUS)
      && (forall i | q <= i < r :: s[i] == n.int_[i - q])
      && (forall i | r <= i < f :: s[i] == n.frac[i - r])
      && (forall i | f <= i < f + |n.exp| :: s[i] == n.exp[i - f])
  {
    var t := LiteralText(n);
    forall i | p <= i < p + |t|
      ensures s[i] == t[i - p]
    {
      assert s[p..p + |t|][i - p] == t[i - p];
    }
  }

  /** No part could have gone on. */
  lemma NoneContinues(s: Bytes, n: Literal, r: nat, f: nat)
    requires IsNumber(n) && f == r + |n.frac| && f + |n.exp| <= |s| && !Continues(n, Peek(s, f + |n.exp|))
    requires (forall i | r <= i < f :: s[i] == n.frac[i - r]) && (forall i | f <= i < f + |n.exp| :: s[i] == n.exp[i - f])
    ensures (IsDigit(Peek(s, r)) ==> n.int_ == ['0' as int]) && (n.frac == [] ==> Peek(s, r) != POINT)
    ensures n.frac != [] ==> !IsDigit(Peek(s, f))
    ensures n.exp != [] ==> !IsDigit(Peek(s, f + |n.exp|))
    ensures n.exp == [] ==> Peek(s, f) != 'e' as int && Peek(s, f) != 'E' as int
  {
    if n.frac != [] { assert s[r] == n.frac[0]; }
    if n.exp != [] { assert s[f] == n.exp[0]; }
  }

  lemma IntegerStops(s: Bytes, q: nat, r: nat, n: Literal)
    requires IsInt(n.int_) && r == q + |n.int_| && r <= |s| && forall i | q <= i < r :: s[i] == n.int_[i - q]
    requires IsDigit(Peek(s, r)) ==> n.int_ == ['0' as int]
    ensures q < |s| && IsDigit(s[q]) && IntegerEnd(s, q) == r && s[q] != MINUS
  {
    assert s[q] == n.int_[0];
    if !IsDigit(Peek(s, r)) { DigitsStop(s, q, r); }
  }

  lemma FractionStops(s: Bytes, r: nat, f: nat, n: Literal)
    requires IsFrac(n.frac) && f == r + |n.frac| && f <= |s| && (forall i | r <= i < f :: s[i] == n.frac[i - r])
    requires n.frac != [] ==> !IsDigit(Peek(s, f))
    ensures n.frac != [] ==> Peek(s, r) == POINT && IsDigit(Peek(s, r + 1)) && DigitsEnd(s, r + 1) == f
  {
    if n.frac != [] {
      assert forall i | r + 1 <= i < f :: s[i] == n.frac[1..][i - r - 1];
      DigitsStop(s, r + 1, f);
      assert s[r + 1] == n.frac[1..][0];
    }
  }

  /** What follows the fraction. */
  lemma ExponentStops(s: Bytes, p: nat, n: Literal, f: nat, convert: Converter, folded: nat)
    requires IsExp(n.exp) && p <= f && f + |n.exp| <= |s| && (forall i | f <= i < f + |n.exp| :: s[i] == n.exp[i - f])
    requires n.exp != [] ==> !IsDigit(Peek(s, f + |n.exp|))
    requires n.exp == [] ==> Peek(s, f) != 'e' as int && Peek(s, f) != 'E' as int
    ensures forall minus, v, isDouble | !isDouble ==> !TooWide(minus, v) ::
      ExponentFrom(s, p, minus, v, f, folded, isDouble, convert) ==
      if n.exp == [] && !isDouble then Done([IntegerEvent(minus, v)], f)
      else if !NegativeExponent(n) && Exponent(n) > 308 + folded then Failed([], NumberTooBig, p)
      else DoubleFrom(s, p, f + |n.exp|, convert)
  {
    hide DigitsEnd, IntegerEvent, DigitsValue, DoubleFrom, TooWide, IsExp, Exponent, NegativeExponent;
    if n.exp != [] { var _ := ExponentSits(s, n, f); } else { NoExponent(n); }
  }

  lemma NoExponent(n: Literal)
    requires n.exp == []
    ensures IsExp(n.exp) && !NegativeExponent(n) && Exponent(n) == 0
  {
  }

  /** Where an exponent's digits stand, and what they say. */
  lemma ExponentSits(s: Bytes, n: Literal, f: nat) returns (g: nat)
    requires IsExp(n.exp) && n.exp != [] && f + |n.exp| <= |s| && (forall i | f <= i < f + |n.exp| :: s[i] == n.exp[i - f])
    requires !IsDigit(Peek(s, f + |n.exp|))
    ensures Peek(s, f) == 'e' as int || Peek(s, f) == 'E' as int
    ensures g == if Peek(s, f + 1) == PLUS || Peek(s, f + 1) == MINUS then f + 2 else f + 1
    ensures IsDigit(Peek(s, g)) && DigitsEnd(s, g) == f + |n.exp| && g <= f + |n.exp|
    ensures (forall i | g <= i < f + |n.exp| :: IsDigit(s[i])) && DigitsValue(s, g, f + |n.exp|) == Exponent(n)
    ensures NegativeExponent(n) <==> Peek(s, f + 1) == MINUS
  {
    hide *;
    var t := ExponentDigits(n);
    g := f + |n.exp| - |t|;
    assert s[f] == n.exp[0] && s[f + 1] == n.exp[1];
    SliceIs(s, f, n.exp, g - f);
    RunStands(s, g, t);
    SignsAre(s, f, n.exp[0], n.exp[1]);
  }

  /** The digits of an exponent, behind its sign if it has one. */
  lemma ExponentDigits(n: Literal) returns (t: Bytes)
    requires IsExp(n.exp) && n.exp != []
    ensures |n.exp| > 1 && (n.exp[0] == 'e' as int || n.exp[0] == 'E' as int)
    ensures |n.exp| - |t| == (if n.exp[1] == '+' as int || n.exp[1] == '-' as int then 2 else 1) && t == n.exp[|n.exp| - |t|..]
    ensures AreDigits(t) && Exponent(n) == DecValue(t) && (NegativeExponent(n) <==> n.exp[1] == '-' as int)
  {
    hide DecValue;
    t := if n.exp[1] == '+' as int || n.exp[1] == '-' as int then n.exp[2..] else n.exp[1..];
  }

  lemma SignsAre(s: Bytes, f: nat, e: Byte, sign: Byte)
    requires f + 1 < |s| && s[f] == e && s[f + 1] == sign
    ensures Peek(s, f) == e && Peek(s, f + 1) == sign && PLUS == '+' as int && MINUS == '-' as int
  {
  }

  /** A run of digits that ends where the text has no more. */
  lemma RunStands(s: Bytes, g: nat, t: Bytes)
    requires AreDigits(t) && g + |t| <= |s| && s[g..g + |t|] == t && !IsDigit(Peek(s, g + |t|))
    ensures IsDigit(Peek(s, g)) && DigitsEnd(s, g) == g + |t| && (forall i | g <= i < g + |t| :: IsDigit(s[i]))
    ensures DigitsValue(s, g, g + |t|) == DecValue(t)
  {
    hide DigitsEnd, DecValue;
    forall i | g <= i < g + |t| ensures IsDigit(s[i]) { assert s[i] == t[i - g]; }
    assert s[g] == t[0];
    DigitsStop(s, g, g + |t|);
  }

  lemma SliceIs(s: Bytes, f: nat, t: Bytes, k: nat)
    requires f + |t| <= |s| && k <= |t| && forall i | f <= i < f + |t| :: s[i] == t[i - f]
    ensures s[f + k..f + |t|] == t[k..]
  {
    forall i | 0 <= i < |t| - k ensures s[f + k..f + |t|][i] == t[k..][i] {
      assert s[f + k + i] == t[k + i];
    }
  }

  /** The digits of the fraction that scale the exponent, and what is looked at behind them. */
  lemma AfterParts(s: Bytes, p: nat, n: Literal, q: nat, r: nat, f: nat, convert: Converter) returns (folded: nat)
    requires p <= q < r <= f <= |s| && (if n.minus then q == p + 1 && s[p] == MINUS else q == p)
    requires IsDigit(s[q]) && s[q] != MINUS && IntegerEnd(s, q) == r && f == r + |n.frac| && AreDigits(n.int_)
    requires r == q + |n.int_| && forall i | q <= i < r :: s[i] == n.int_[i - q]
    requires if n.frac != [] then Peek(s, r) == POINT && IsDigit(Peek(s, r + 1)) && DigitsEnd(s, r + 1) == f
             else f == r && Peek(s, r) != POINT
    ensures folded == 0 || folded < |n.frac|
    ensures n.frac != [] && |n.int_| + |n.frac| <= 19 ==> folded == |n.frac| - 1
    ensures var v := DecValue(n.int_);
      NumberAt(s, p, convert) == ExponentFrom(s, p, n.minus, v, f, folded, n.frac != [] || TooWide(n.minus, v), convert)
  {
    hide ExponentFrom, DigitsEnd, IntegerEnd, FoldedFraction, DecValue, TooWide;
    assert s[q..r] == n.int_;
    var v := DecValue(n.int_);
    folded := 0;
    if n.frac != [] {
      folded := FoldedFraction(s, r + 1, v, r - q, TooWide(n.minus, v));
      FoldedFractionBound(s, r + 1, v, r - q, TooWide(n.minus, v));
      if |n.int_| + |n.frac| <= 19 { AllFolded(s, r + 1, v, r - q, TooWide(n.minus, v)); }
    }
  }

  lemma IntegerFits(n: Literal)
    requires AreDigits(n.int_)
    ensures IsInteger64(n) <==> n.frac == [] && n.exp == [] && !TooWide(n.minus, DecValue(n.int_))
  {
    hide DecValue;
  }

  lemma ReadsAsParts(n: Literal, p: nat, end: nat, folded: nat, convert: Converter)
    requires IsNumber(n)
    ensures ReadsAs(n, p, end, folded, convert) ==
      if IsInteger64(n) then Done([IntegerEvent(n.minus, DecValue(n.int_))], end)
      else if !NegativeExponent(n) && Exponent(n) > 308 + folded then Failed([], NumberTooBig, p)
      else match convert(LiteralText(n))
        case None => Failed([], NumberTooBig, p)
        case Some(image) => Done([DoubleEv(image)], end)
  {
    hide IsInteger64, IntegerEvent, Exponent, LiteralText;
  }

  lemma DoubleOfLiteral(s: Bytes, p: nat, n: Literal, convert: Converter)
    requires p + |LiteralText(n)| <= |s| && s[p..p + |LiteralText(n)|] == LiteralText(n)
    ensures DoubleFrom(s, p, p + |LiteralText(n)|, convert) ==
      match convert(LiteralText(n))
      case None => Failed([], NumberTooBig, p)
      case Some(image) => Done([DoubleEv(image)], p + |LiteralText(n)|)
  {
    hide LiteralText;
  }
}
