/** `ParseNumber`: the guarded accumulators of an integer part, the digits of a fraction
    and the exponent, each read off the stream in place. The accumulators have the
    widths of the original, and every step on them is checked not to leave its
    width. */
module NumberReader {
  import opened Common
  import opened Digits
  import opened Json
  import opened MachineIntegers
  import opened Streams
  import opened Tokens

  /** Reads digits into 32 bits, stopping before the first that would pass
      `limit * 10 + last`. */
  method TakeDigits32(is_: StringStream, first: uint32, limit: uint32, last: Byte, ghost q: nat)
    returns (i: uint32, wide: bool, taken: nat)
    requires AllDigits(is_.text, q, is_.pos) && first as int == DigitsValue(is_.text, q, is_.pos)
    requires IsDigit(last) && limit as int * 10 + (last - '0' as int) < 0x1_0000_0000 && first <= limit
    modifies is_
    ensures is_.pos == old(is_.pos) + taken && AllDigits(is_.text, q, is_.pos)
    ensures DigitsEnd(is_.text, is_.pos) == DigitsEnd(is_.text, old(is_.pos))
    ensures i as int == DigitsValue(is_.text, q, is_.pos)
    ensures if wide
      then IsDigit(Peek(is_.text, is_.pos)) && i >= limit
           && i as int * 10 + (Peek(is_.text, is_.pos) - '0' as int) > limit as int * 10 + (last - '0' as int)
      else is_.pos == DigitsEnd(is_.text, old(is_.pos)) && i as int <= limit as int * 10 + (last - '0' as int)
  {
    i, wide, taken := first, false, 0;
    var c := is_.Peek();
    while IsDigit(c)
      invariant c == Peek(is_.text, is_.pos)
      invariant is_.pos == old(is_.pos) + taken && AllDigits(is_.text, q, is_.pos)
      invariant DigitsEnd(is_.text, is_.pos) == DigitsEnd(is_.text, old(is_.pos))
      invariant i as int == DigitsValue(is_.text, q, is_.pos) && i as int <= limit as int * 10 + (last - '0' as int)
      decreases |is_.text| - is_.pos
    {
      if i >= limit {
        if i != limit || c > last {
          wide := true;
          return;
        }
      }
      NextDigit(is_.text, q, is_.pos);
      i := i * 10 + (c - '0' as int) as uint32;
      var _ := is_.Take();
      taken := taken + 1;
      c := is_.Peek();
    }
  }

  /** The same in 64 bits. */
  method TakeDigits64(is_: StringStream, first: uint64, limit: uint64, last: Byte, ghost q: nat)
    returns (i: uint64, wide: bool, taken: nat)
    requires AllDigits(is_.text, q, is_.pos) && first as int == DigitsValue(is_.text, q, is_.pos)
    requires IsDigit(last) && limit as int * 10 + (last - '0' as int) < 0x1_0000_0000_0000_0000 && first <= limit
    modifies is_
    ensures is_.pos == old(is_.pos) + taken && AllDigits(is_.text, q, is_.pos)
    ensures DigitsEnd(is_.text, is_.pos) == DigitsEnd(is_.text, old(is_.pos))
    ensures i as int == DigitsValue(is_.text, q, is_.pos)
    ensures if wide
      then IsDigit(Peek(is_.text, is_.pos)) && i >= limit
           && i as int * 10 + (Peek(is_.text, is_.pos) - '0' as int) > limit as int * 10 + (last - '0' as int)
      else is_.pos == DigitsEnd(is_.text, old(is_.pos)) && i as int <= limit as int * 10 + (last - '0' as int)
  {
    i, wide, taken := first, false, 0;
    var c := is_.Peek();
    while IsDigit(c)
      invariant c == Peek(is_.text, is_.pos)
      invariant is_.pos == old(is_.pos) + taken && AllDigits(is_.text, q, is_.pos)
      invariant DigitsEnd(is_.text, is_.pos) == DigitsEnd(is_.text, old(is_.pos))
      invariant i as int == DigitsValue(is_.text, q, is_.pos) && i as int <= limit as int * 10 + (last - '0' as int)
      decreases |is_.text| - is_.pos
    {
      if i >= limit {
        if i != limit || c > last {
          wide := true;
          return;
        }
      }
      NextDigit(is_.text, q, is_.pos);
      i := i * 10 + (c - '0' as int) as uint64;
      var _ := is_.Take();
      taken := taken + 1;
      c := is_.Peek();
    }
  }

  /** Skips digits. */
  method SkipDigits(is_: StringStream)
    requires is_.pos <= |is_.text|
    modifies is_
    ensures is_.pos == DigitsEnd(is_.text, old(is_.pos))
  {
    var c := is_.Peek();
    while IsDigit(c)
      invariant is_.pos <= |is_.text| && c == Peek(is_.text, is_.pos)
      invariant DigitsEnd(is_.text, is_.pos) == DigitsEnd(is_.text, old(is_.pos))
      decreases |is_.text| - is_.pos
    {
      var _ := is_.Take();
      c := is_.Peek();
    }
  }

  // ----- the integer part -----

  predicate PastUint32(minus: bool, n: nat) {
    if minus then n > 0x8000_0000 else n > 0xFFFF_FFFF
  }

  datatype Accumulated = Accumulated(i: uint32, i64: uint64, use64bit: bool, useDouble: bool, significandDigit: nat)

  /** What the accumulators hold once the integer part `[q..r)` has been read: its value
      in the narrowest width that can hold it. */
  predicate Holds(s: Bytes, q: nat, r: nat, minus: bool, a: Accumulated)
    requires AllDigits(s, q, r)
  {
    var n := DigitsValue(s, q, r);
    (a.use64bit <==> PastUint32(minus, n)) && (a.useDouble <==> TooWide(minus, n))
    && (!a.use64bit ==> a.i as int == n)
    && (a.use64bit && !a.useDouble ==> a.i64 as int == n)
    && (if a.useDouble then a.significandDigit >= 17 else a.significandDigit + q + 1 == r)
  }

  /** Integer digits, in 32 bits, then 64 bits, then as a double. */
  method IntegerPart(is_: StringStream, minus: bool) returns (found: bool, a: Accumulated)
    requires is_.pos <= |is_.text|
    modifies is_
    ensures found <==> IsDigit(Peek(is_.text, old(is_.pos)))
    ensures found ==> is_.pos == IntegerEnd(is_.text, old(is_.pos))
                      && Holds(is_.text, old(is_.pos), is_.pos, minus, a)
    ensures !found ==> is_.pos == old(is_.pos)
  {
    ghost var q := is_.pos;
    var c := is_.Peek();
    a := Accumulated(0, 0, false, false, 0);
    if c == '0' as int {
      found := true;
      NextDigit(is_.text, q, q);
      var _ := is_.Take();
    } else if '1' as int <= c <= '9' as int {
      found := true;
      var _ := is_.Take();
      NextDigit(is_.text, q, q);
      EndAfterDigit(is_.text, q);
      a := LongInteger(is_, minus, (c - '0' as int) as uint32, q);
    } else {
      found := false;
    }
  }

  /** The digits after a first non-zero one. */
  method LongInteger(is_: StringStream, minus: bool, first: uint32, ghost q: nat) returns (a: Accumulated)
    requires is_.pos == q + 1 && AllDigits(is_.text, q, q + 1)
    requires first as int == DigitsValue(is_.text, q, q + 1) && first < 10
    modifies is_
    ensures is_.pos == DigitsEnd(is_.text, q + 1) && AllDigits(is_.text, q, is_.pos) && Holds(is_.text, q, is_.pos, minus, a)
  {
    var i, wide, taken := TakeDigits32(is_, first, if minus then 214748364 else 429496729,
                                       if minus then '8' as int else '5' as int, q);
    ghost var end := DigitsEnd(is_.text, q + 1);
    if !wide {
      return Accumulated(i, 0, false, false, taken);
    }
    DigitsToEnd(is_.text, q, is_.pos);
    ValueGrows(is_.text, q, is_.pos, end);
    assert PastUint32(minus, DigitsValue(is_.text, q, end));
    var i64, wide64, taken64 := TakeDigits64(is_, i as uint64, if minus then 0x0CCC_CCCC_CCCC_CCCC else 0x1999_9999_9999_9999,
                                             if minus then '8' as int else '5' as int, q);
    if wide64 {
      DigitsToEnd(is_.text, q, is_.pos);
      ValueGrows(is_.text, q, is_.pos, end);
      assert TooWide(minus, DigitsValue(is_.text, q, end));
      WideHasManyDigits(is_.text, q, is_.pos);
      SkipDigits(is_);
    }
    a := Accumulated(i, i64, true, wide64, taken + taken64);
  }

  lemma DigitsToEnd(s: Bytes, q: nat, p: nat)
    requires AllDigits(s, q, p) && IsDigit(Peek(s, p))
    ensures p < DigitsEnd(s, p) <= |s| && AllDigits(s, q, DigitsEnd(s, p))
  {
    EndAfterDigit(s, p);
  }

  // ----- the fraction -----

  /** Fraction digits after the point: exactly into 64 bits, then as a double until 17
      significant digits; `folded` counts those that scale the exponent. */
  method FractionPart(is_: StringStream, significand: uint64, useDouble: bool, digits: nat) returns (folded: nat)
    requires is_.pos <= |is_.text| && IsDigit(Peek(is_.text, is_.pos))
    modifies is_
    ensures is_.pos == DigitsEnd(is_.text, old(is_.pos))
    ensures !useDouble ==> folded == FoldedFraction(is_.text, old(is_.pos), significand as int, digits + 1, false)
    ensures useDouble ==> folded == FoldedRounded(is_.text, old(is_.pos), true, digits)
  {
    var significant, positive := digits, true;
    folded := 0;
    if !useDouble {
      folded, significant, positive := ExactFraction(is_, significand, digits);
    }
    var more := RoundedFraction(is_, positive, significant);
    folded := folded + more;
  }

  method ExactFraction(is_: StringStream, significand: uint64, digits: nat) returns (folded: nat, significant: nat, positive: bool)
    requires is_.pos <= |is_.text|
    modifies is_
    ensures is_.pos == old(is_.pos) + folded <= |is_.text|
    ensures DigitsEnd(is_.text, is_.pos) == DigitsEnd(is_.text, old(is_.pos))
    ensures var (k, m, d) := FoldedExact(is_.text, old(is_.pos), significand as int, digits);
      k == is_.pos && d == significant && positive == (m > 0)
  {
    var i64 := significand;
    folded, significant := 0, digits;
    var c := is_.Peek();
    while IsDigit(c)
      invariant c == Peek(is_.text, is_.pos) && is_.pos == old(is_.pos) + folded <= |is_.text|
      invariant DigitsEnd(is_.text, is_.pos) == DigitsEnd(is_.text, old(is_.pos))
      invariant FoldedExact(is_.text, is_.pos, i64 as int, significant) ==
                FoldedExact(is_.text, old(is_.pos), significand as int, digits)
      decreases |is_.text| - is_.pos
    {
      if i64 > 0x1F_FFFF_FFFF_FFFF { break; }
      i64 := i64 * 10 + (c - '0' as int) as uint64;
      var _ := is_.Take();
      folded := folded + 1;
      if i64 != 0 { significant := significant + 1; }
      c := is_.Peek();
    }
    positive := i64 > 0;
  }

  method RoundedFraction(is_: StringStream, positive: bool, digits: nat) returns (folded: nat)
    requires is_.pos <= |is_.text|
    modifies is_
    ensures is_.pos == DigitsEnd(is_.text, old(is_.pos))
    ensures folded == FoldedRounded(is_.text, old(is_.pos), positive, digits)
  {
    var significant, above := digits, positive;
    folded := 0;
    var c := is_.Peek();
    while IsDigit(c)
      invariant c == Peek(is_.text, is_.pos) && is_.pos <= |is_.text|
      invariant DigitsEnd(is_.text, is_.pos) == DigitsEnd(is_.text, old(is_.pos))
      invariant folded + FoldedRounded(is_.text, is_.pos, above, significant) ==
                FoldedRounded(is_.text, old(is_.pos), positive, digits)
      decreases |is_.text| - is_.pos
    {
      if significant < 17 {
        above := above || c != '0' as int;
        folded := folded + 1;
        if above { significant := significant + 1; }
      }
      var _ := is_.Take();
      c := is_.Peek();
    }
  }

  // ----- the exponent -----

  /** `(expFrac + 2147483639) / 10` with C's truncating division. */
  function MaxExponent(folded: nat): (r: int)
    ensures folded <= 2147483639 ==> 0 <= r && r * 10 + 9 + folded <= 2147483648
  {
    if folded <= 2147483639 then (2147483639 - folded) / 10 else 0 - (folded - 2147483639) / 10
  }

  /** Digit `k` of a negative exponent is accumulated if it is one of the first two, or the
      number before it is within the limit; the sum then fits 32 bits, alone and with
      `expFrac`. */
  predicate NegativeDigitFits(s: Bytes, q: nat, k: nat, folded: nat)
    requires q <= k && AllDigits(s, q, k + 1)
  {
    k <= q + 1 || DigitsValue(s, q, k) <= MaxExponent(folded) ==>
      DigitsValue(s, q, k + 1) <= 2147483647 && DigitsValue(s, q, k + 1) + folded <= 2147483648
  }

  predicate NegativeFits(s: Bytes, q: nat, end: nat, folded: nat)
    requires AllDigits(s, q, end)
  {
    forall k | q <= k < end :: NegativeDigitFits(s, q, k, folded)
  }

  /** The same for a positive exponent, whose limit is `308 - expFrac`. */
  predicate PositiveDigitFits(s: Bytes, q: nat, k: nat, folded: nat)
    requires q <= k && AllDigits(s, q, k + 1)
  {
    DigitsValue(s, q, k) <= 308 + folded ==> DigitsValue(s, q, k + 1) <= 2147483647
  }

  predicate PositiveFits(s: Bytes, q: nat, end: nat, folded: nat)
    requires AllDigits(s, q, end)
  {
    308 + folded <= 2147483647 && forall k | q <= k < end :: PositiveDigitFits(s, q, k, folded)
  }

  /** The digits of a negative exponent up to `pos`, of which those up to `last` were accumulated:
      all of them, or as many as first exceed `maxExp`. */
  ghost predicate ReadingNegative(s: Bytes, q: nat, last: nat, pos: nat, end: nat, exp: int, maxExp: int) {
    && q < last <= pos <= end && AllDigits(s, q, end) && DigitsEnd(s, pos) == end && exp == DigitsValue(s, q, last)
    && (last == pos || (pos == end && exp > maxExp && last >= q + 2))
    && (last >= q + 3 ==> DigitsValue(s, q, last - 1) <= maxExp)
    && (last == pos && last >= q + 2 ==> exp <= maxExp || pos == end)
  }

  lemma NegativeDigit(s: Bytes, q: nat, last: nat, pos: nat, end: nat, exp: int, maxExp: int)
    requires ReadingNegative(s, q, last, pos, end, exp, maxExp) && IsDigit(Peek(s, pos))
    ensures last == pos < end <= |s| && 0 <= exp && DigitsEnd(s, pos + 1) == end
    ensures var next := exp * 10 + (s[pos] - '0' as int);
      exp <= next && ReadingNegative(s, q, pos + 1, if next > maxExp then end else pos + 1, end, next, maxExp)
  {
    hide DigitsValue;
    EndAfterDigit(s, pos);
    NextDigit(s, q, pos);
  }

  lemma NegativeStarts(s: Bytes, q: nat, maxExp: int)
    requires q < |s| && IsDigit(Peek(s, q))
    ensures ReadingNegative(s, q, q + 1, q + 1, DigitsEnd(s, q), s[q] - '0' as int, maxExp)
  {
    EndAfterDigit(s, q);
    NextDigit(s, q, q);
    EmptyRun(s, q);
    hide DigitsValue;
  }

  lemma NegativeEnds(s: Bytes, q: nat, last: nat, pos: nat, end: nat, exp: int, maxExp: int)
    requires ReadingNegative(s, q, last, pos, end, exp, maxExp) && !IsDigit(Peek(s, pos))
    ensures pos == end && AllDigits(s, q, end) && q < last <= end && exp == DigitsValue(s, q, last)
    ensures last == end || (exp > maxExp && last >= q + 2)
    ensures last >= q + 3 ==> DigitsValue(s, q, last - 1) <= maxExp
  {
    hide DigitsValue;
  }

  /** The digits of a negative exponent: exact up to `maxExp`, and past it cut off. `inRange`
      says that no intermediate left the 32-bit range. */
  method NegativeExponent(is_: StringStream, folded: nat) returns (exp: int, ghost inRange: bool)
    requires is_.pos < |is_.text| && IsDigit(Peek(is_.text, is_.pos))
    modifies is_
    ensures is_.pos == DigitsEnd(is_.text, old(is_.pos)) && AllDigits(is_.text, old(is_.pos), is_.pos)
    ensures inRange && InInt32(exp - folded) <==> NegativeFits(is_.text, old(is_.pos), is_.pos, folded)
    ensures DigitsValue(is_.text, old(is_.pos), is_.pos) <= MaxExponent(folded) ==>
            exp == 0 - DigitsValue(is_.text, old(is_.pos), is_.pos)
  {
    ghost var q, end := is_.pos, DigitsEnd(is_.text, is_.pos);
    hide DigitsValue, MaxExponent, NegativeFits, DigitsEnd, ReadingNegative;
    NegativeStarts(is_.text, q, MaxExponent(folded));
    var c := is_.Take();
    exp, inRange := c - '0' as int, true;
    var maxExp := MaxExponent(folded);
    ghost var last := is_.pos;
    NothingTooWide(is_.text, q);
    EmptyRun(is_.text, q);
    c := is_.Peek();
    while IsDigit(c)
      invariant c == Peek(is_.text, is_.pos) && is_.pos <= |is_.text|
      invariant ReadingNegative(is_.text, q, last, is_.pos, end, exp, maxExp)
      invariant inRange <==> exp <= 2147483647
      decreases |is_.text| - is_.pos
    {
      NegativeDigit(is_.text, q, last, is_.pos, end, exp, maxExp);
      exp := exp * 10 + (c - '0' as int);
      inRange := inRange && InInt32(exp);
      var _ := is_.Take();
      last := is_.pos;
      if exp > maxExp {
        SkipDigits(is_);
      }
      c := is_.Peek();
    }
    NegativeEnds(is_.text, q, last, is_.pos, end, exp, maxExp);
    NegativeFitsIs(is_.text, q, last, end, folded);
    exp := 0 - exp;
  }

  lemma EmptyRun(s: Bytes, q: nat)
    requires q <= |s|
    ensures DigitsValue(s, q, q) == 0
  {
  }

  lemma NothingTooWide(s: Bytes, q: nat)
    requires AllDigits(s, q, q + 1)
    ensures 0 <= DigitsValue(s, q, q + 1) <= 9
  {
    NextDigit(s, q, q);
  }

  /** What the last prefix accumulated says of all of them. */
  lemma NegativeFitsIs(s: Bytes, q: nat, last: nat, end: nat, folded: nat)
    requires AllDigits(s, q, end) && q < last <= end
    requires last == end || (DigitsValue(s, q, last) > MaxExponent(folded) && last >= q + 2)
    requires last >= q + 3 ==> DigitsValue(s, q, last - 1) <= MaxExponent(folded)
    ensures NegativeFits(s, q, end, folded) <==>
            DigitsValue(s, q, last) <= 2147483647 && DigitsValue(s, q, last) + folded <= 2147483648
    ensures DigitsValue(s, q, end) <= MaxExponent(folded) ==> last == end
  {
    ValueGrows(s, q, last, end);
    forall k | q <= k <= last ensures DigitsValue(s, q, k) <= DigitsValue(s, q, last) { ValueGrows(s, q, k, last); }
    forall k | last <= k <= end ensures DigitsValue(s, q, k) >= DigitsValue(s, q, last) { ValueGrows(s, q, last, k); }
    hide DigitsValue, MaxExponent;
    if NegativeFits(s, q, end, folded) {
      assert NegativeDigitFits(s, q, last - 1, folded);
    }
    if DigitsValue(s, q, last) <= 2147483647 && DigitsValue(s, q, last) + folded <= 2147483648 {
      forall k | q <= k < end ensures NegativeDigitFits(s, q, k, folded) {
        if k >= last {
          assert DigitsValue(s, q, k) >= DigitsValue(s, q, last);
        } else {
          assert DigitsValue(s, q, k + 1) <= DigitsValue(s, q, last);
        }
      }
    }
  }

  /** The digits of a positive exponent, given up on as soon as the number is too big for
      a double. */
  method PositiveExponent(is_: StringStream, folded: nat) returns (exp: int, tooBig: bool, ghost inRange: bool)
    requires is_.pos < |is_.text| && IsDigit(Peek(is_.text, is_.pos))
    modifies is_
    ensures tooBig <==> DigitsValue(is_.text, old(is_.pos), DigitsEnd(is_.text, old(is_.pos))) > 308 + folded
    ensures !tooBig ==> is_.pos == DigitsEnd(is_.text, old(is_.pos))
                        && exp == DigitsValue(is_.text, old(is_.pos), is_.pos)
    ensures AllDigits(is_.text, old(is_.pos), DigitsEnd(is_.text, old(is_.pos)))
    ensures (inRange && InInt32(308 + folded)) == PositiveFits(is_.text, old(is_.pos), DigitsEnd(is_.text, old(is_.pos)), folded)
  {
    ghost var q, end := is_.pos, DigitsEnd(is_.text, is_.pos);
    EndAfterDigit(is_.text, q);
    NextDigit(is_.text, q, q);
    assert DigitsValue(is_.text, q, q) == 0;
    hide DigitsValue, PositiveFits, DigitsEnd;
    var c := is_.Take();
    exp, tooBig, inRange := c - '0' as int, false, true;
    var maxExp := 308 + folded;
    NothingTooWide(is_.text, q);
    c := is_.Peek();
    while IsDigit(c)
      invariant c == Peek(is_.text, is_.pos) && q < is_.pos <= end && AllDigits(is_.text, q, is_.pos)
      invariant DigitsEnd(is_.text, is_.pos) == end
      invariant 0 <= exp == DigitsValue(is_.text, q, is_.pos) <= maxExp
      invariant inRange <==> exp <= 2147483647
      decreases |is_.text| - is_.pos
    {
      EndAfterDigit(is_.text, is_.pos);
      NextDigit(is_.text, q, is_.pos);
      exp := exp * 10 + (c - '0' as int);
      inRange := inRange && InInt32(exp);
      var _ := is_.Take();
      if exp > maxExp {
        TooBigFits(is_.text, q, is_.pos, end, folded);
        tooBig := true;
        return;
      }
      c := is_.Peek();
    }
    WholeFits(is_.text, q, is_.pos, folded);
  }

  lemma TooBigFits(s: Bytes, q: nat, last: nat, end: nat, folded: nat)
    requires AllDigits(s, q, end) && q < last <= end
    requires DigitsValue(s, q, last) > 308 + folded && DigitsValue(s, q, last - 1) <= 308 + folded
    ensures PositiveFits(s, q, end, folded) <==> 308 + folded <= 2147483647 && DigitsValue(s, q, last) <= 2147483647
    ensures DigitsValue(s, q, end) > 308 + folded
  {
    ValueGrows(s, q, last, end);
    PositiveFitsIs(s, q, last, end, folded);
  }

  lemma WholeFits(s: Bytes, q: nat, end: nat, folded: nat)
    requires AllDigits(s, q, end) && q < end && DigitsValue(s, q, end) <= 308 + folded
    ensures PositiveFits(s, q, end, folded) <==> 308 + folded <= 2147483647 && DigitsValue(s, q, end) <= 2147483647
  {
    ValueGrows(s, q, end - 1, end);
    PositiveFitsIs(s, q, end, end, folded);
  }

  lemma PositiveFitsIs(s: Bytes, q: nat, last: nat, end: nat, folded: nat)
    requires AllDigits(s, q, end) && q < last <= end
    requires last == end || DigitsValue(s, q, last) > 308 + folded
    requires DigitsValue(s, q, last - 1) <= 308 + folded
    ensures PositiveFits(s, q, end, folded) <==> 308 + folded <= 2147483647 && DigitsValue(s, q, last) <= 2147483647
  {
    ValueGrows(s, q, last, end);
    forall k | q <= k <= last ensures DigitsValue(s, q, k) <= DigitsValue(s, q, last) { ValueGrows(s, q, k, last); }
    forall k | last <= k <= end ensures DigitsValue(s, q, k) >= DigitsValue(s, q, last) { ValueGrows(s, q, last, k); }
    hide DigitsValue;
    if PositiveFits(s, q, end, folded) {
      assert PositiveDigitFits(s, q, last - 1, folded);
    }
    if 308 + folded <= 2147483647 && DigitsValue(s, q, last) <= 2147483647 {
      forall k | q <= k < end ensures PositiveDigitFits(s, q, k, folded) {
        if k >= last {
          assert DigitsValue(s, q, k) >= DigitsValue(s, q, last);
        } else {
          assert DigitsValue(s, q, k + 1) <= DigitsValue(s, q, last);
        }
      }
    }
  }

  // ----- when every exponent value fits 32 bits -----

  /** From `f` on, where only an exponent can still come, after `folded` fraction digits that
      scale it. */
  predicate ExponentInRange(s: Bytes, f: nat, folded: nat) {
    folded <= 2147483648 &&
    ((Peek(s, f) == 'e' as int || Peek(s, f) == 'E' as int) ==>
       var sign := Peek(s, f + 1);
       var g := if sign == PLUS || sign == MINUS then f + 2 else f + 1;
       IsDigit(Peek(s, g)) ==>
         var end := DigitsEnd(s, g);
         AllDigits(s, g, end) && if sign == MINUS then NegativeFits(s, g, end, folded) else PositiveFits(s, g, end, folded))
  }

  /** A literal whose integer part is `[q..r)`. */
  predicate FractionInRange(s: Bytes, minus: bool, q: nat, r: nat)
    requires q <= r <= |s| && AllDigits(s, q, r)
  {
    if Peek(s, r) != POINT then ExponentInRange(s, r, 0)
    else if !IsDigit(Peek(s, r + 1)) then true
    else
      var v := DigitsValue(s, q, r);
      ExponentInRange(s, DigitsEnd(s, r + 1), FoldedFraction(s, r + 1, v, r - q, TooWide(minus, v)))
  }

  /** Every value that `expFrac`, `exp`, `308 - expFrac` and `exp + expFrac` take while the
      literal at `p` is read fits 32 bits. */
  predicate NumberInRange(s: Bytes, p: nat)
    requires p <= |s|
  {
    var minus := Peek(s, p) == MINUS;
    var q := if minus then p + 1 else p;
    IsDigit(Peek(s, q)) ==> FractionInRange(s, minus, q, IntegerEnd(s, q))
  }

  lemma {:induction false} NextWithin(s: Bytes, q: nat, k: nat)
    requires q < k && AllDigits(s, q, k)
    ensures DigitsValue(s, q, k) <= DigitsValue(s, q, k - 1) * 10 + 9
    ensures k <= q + 2 ==> DigitsValue(s, q, k) <= 99
  {
    NextDigit(s, q, k - 1);
    if k == q + 2 { NextDigit(s, q, q); }
  }

  /** Up to 214,748,055 fraction digits that scale it, every exponent fits. */
  lemma FewFoldedFit(s: Bytes, f: nat, folded: nat)
    requires folded <= 214_748_055
    ensures ExponentInRange(s, f, folded)
  {
    var sign := Peek(s, f + 1);
    var g := if sign == PLUS || sign == MINUS then f + 2 else f + 1;
    if IsDigit(Peek(s, g)) {
      var end := DigitsEnd(s, g);
      forall k | g <= k < end
        ensures NegativeDigitFits(s, g, k, folded) && PositiveDigitFits(s, g, k, folded)
      {
        NextWithin(s, g, k + 1);
        hide DigitsValue;
      }
      hide NegativeDigitFits, PositiveDigitFits, DigitsEnd;
    }
  }

  /** The bound in terms of the literal: the number of its fraction digits. */
  lemma FewFractionDigitsFit(s: Bytes, p: nat)
    requires p <= |s| && FractionDigits(s, p) <= 214_748_055
    ensures NumberInRange(s, p)
  {
    var minus := Peek(s, p) == MINUS;
    var q := if minus then p + 1 else p;
    if IsDigit(Peek(s, q)) {
      var r := IntegerEnd(s, q);
      var v := DigitsValue(s, q, r);
      if Peek(s, r) == POINT && IsDigit(Peek(s, r + 1)) {
        FoldedFractionBound(s, r + 1, v, r - q, TooWide(minus, v));
        FewFoldedFit(s, DigitsEnd(s, r + 1), FoldedFraction(s, r + 1, v, r - q, TooWide(minus, v)));
      }
      if Peek(s, r) != POINT { FewFoldedFit(s, r, 0); }
      hide ExponentInRange, FoldedFraction, DigitsValue, DigitsEnd, IntegerEnd;
    }
  }

  const WIDE_EXPONENT: Bytes :=
    ['e' as int, '2' as int, '1' as int, '4' as int, '7' as int, '4' as int, '8' as int, '3' as int, '6' as int, '4' as int, '8' as int]

  function Zeros(n: nat): (t: Bytes)
    ensures |t| == n && forall i | 0 <= i < n :: t[i] == '0' as int
  {
    seq(n, _ => '0' as int)
  }

  /** `0.00…0e2147483648` with `n` zeros behind the point. */
  function ZerosLiteral(n: nat): Bytes {
    ['0' as int, POINT] + Zeros(n) + WIDE_EXPONENT
  }

  /** The bound is sharp: with one digit more this literal leaves the range. */
  lemma BoundIsSharp(n: nat)
    requires n > 0
    ensures FractionDigits(ZerosLiteral(n), 0) == n
    ensures NumberInRange(ZerosLiteral(n), 0) <==> n <= 214_748_055
  {
    var s := ZerosLiteral(n);
    LiteralBytes(n);
    DigitsStop(s, 2, n + 2);
    ZerosFold(s, 2, n + 2);
    IsZero(s);
    if n <= 214_748_055 {
      hide *;
      FewFractionDigitsFit(s, 0);
    } else {
      WideExponentValue(s, n + 3);
      hide WIDE_EXPONENT, DigitsValue, FoldedFraction, DigitsEnd, ZerosLiteral;
      assert DigitsValue(s, n + 3, n + 12) == 214_748_364;
      assert !PositiveDigitFits(s, n + 3, n + 12, n);
    }
  }

  lemma LiteralBytes(n: nat)
    ensures var s := ZerosLiteral(n);
      && |s| == n + 13 && s[0] == '0' as int && s[1] == POINT && (forall i | 2 <= i < n + 2 :: s[i] == '0' as int)
      && s[n + 2..] == WIDE_EXPONENT && s[n + 2] == 'e' as int && IsDigit(s[n + 3])
  {
    var s := ZerosLiteral(n);
    assert s[n + 2..] == WIDE_EXPONENT;
    assert s[n + 2] == s[n + 2..][0] && s[n + 3] == s[n + 2..][1];
  }

  lemma IsZero(s: Bytes)
    requires |s| > 1 && s[0] == '0' as int
    ensures IntegerEnd(s, 0) == 1 && AllDigits(s, 0, 1) && DigitsValue(s, 0, 1) == 0
  {
    NextDigit(s, 0, 0);
  }

  /** Zeros right behind the point all scale the exponent. */
  lemma ZerosFold(s: Bytes, i: nat, end: nat)
    requires i <= end < |s| && (forall k | i <= k < end :: s[k] == '0' as int) && !IsDigit(s[end])
    ensures FoldedFraction(s, i, 0, 1, false) == end - i
  {
    ZerosFoldExactly(s, i, end);
  }

  lemma {:induction false} ZerosFoldExactly(s: Bytes, i: nat, end: nat)
    requires i <= end < |s| && (forall k | i <= k < end :: s[k] == '0' as int) && !IsDigit(s[end])
    ensures FoldedExact(s, i, 0, 0) == (end, 0, 0)
    decreases end - i
  {
    if i < end { ZerosFoldExactly(s, i + 1, end); }
  }

  lemma WideExponentValue(s: Bytes, g: nat)
    requires g > 0 && g + 10 == |s| && s[g - 1..] == WIDE_EXPONENT
    ensures AllDigits(s, g, g + 10) && DigitsEnd(s, g) == g + 10
    ensures DigitsValue(s, g, g + 9) == 214_748_364 && DigitsValue(s, g, g + 10) == 2_147_483_648
    ensures s[g] != PLUS && s[g] != MINUS
  {
    WideExponentBytes(s, g);
    DigitsStop(s, g, g + 10);
    hide WIDE_EXPONENT, DigitsEnd;
    assert DigitsValue(s, g, g) == 0;
    hide DigitsValue;
    NextDigit(s, g, g);
    NextDigit(s, g, g + 1);
    NextDigit(s, g, g + 2);
    NextDigit(s, g, g + 3);
    NextDigit(s, g, g + 4);
    NextDigit(s, g, g + 5);
    NextDigit(s, g, g + 6);
    NextDigit(s, g, g + 7);
    NextDigit(s, g, g + 8);
    NextDigit(s, g, g + 9);
  }

  lemma WideExponentBytes(s: Bytes, g: nat)
    requires g > 0 && g + 10 == |s| && s[g - 1..] == WIDE_EXPONENT
    ensures s[g] == '2' as int && s[g + 1] == '1' as int && s[g + 2] == '4' as int && s[g + 3] == '7' as int && s[g + 4] == '4' as int
    ensures s[g + 5] == '8' as int && s[g + 6] == '3' as int && s[g + 7] == '6' as int && s[g + 8] == '4' as int && s[g + 9] == '8' as int
    ensures AllDigits(s, g, g + 10)
  {
    var t := s[g - 1..];
    assert s[g] == t[1] && s[g + 1] == t[2] && s[g + 2] == t[3] && s[g + 3] == t[4] && s[g + 4] == t[5];
    assert s[g + 5] == t[6] && s[g + 6] == t[7] && s[g + 7] == t[8] && s[g + 8] == t[9] && s[g + 9] == t[10];
  }

  // ----- whole literals -----

  /** The length of the fraction whose point would be at `r`. */
  function FractionLength(s: Bytes, r: nat): nat
    requires r <= |s|
  {
    if Peek(s, r) == POINT then DigitsEnd(s, r + 1) - (r + 1) else 0
  }

  /** How many fraction digits the literal at `p` has. */
  function FractionDigits(s: Bytes, p: nat): nat
    requires p <= |s|
  {
    var q := if Peek(s, p) == MINUS then p + 1 else p;
    if IsDigit(Peek(s, q)) then FractionLength(s, IntegerEnd(s, q)) else 0
  }

  /** Only digits that can matter are counted, whichever accumulator held the integer. */
  lemma SameFolding(s: Bytes, q: nat, r: nat, minus: bool, a: Accumulated, folded: nat)
    requires q < r < |s| && AllDigits(s, q, r) && Holds(s, q, r, minus, a)
    requires var significand := if a.use64bit then a.i64 else a.i as uint64;
      folded == if a.useDouble then FoldedRounded(s, r + 1, true, a.significandDigit)
                else FoldedFraction(s, r + 1, significand as int, a.significandDigit + 1, false)
    ensures folded == FoldedFraction(s, r + 1, DigitsValue(s, q, r), r - q, TooWide(minus, DigitsValue(s, q, r)))
    ensures folded <= DigitsEnd(s, r + 1) - (r + 1)
  {
    if a.useDouble {
      WideHasManyDigits(s, q, r);
      NothingFolded(s, r + 1, true, a.significandDigit);
      NothingFolded(s, r + 1, true, r - q - 1);
    }
    FoldedFractionBound(s, r + 1, DigitsValue(s, q, r), r - q, TooWide(minus, DigitsValue(s, q, r)));
  }

  /** The event of a literal without fraction and exponent, from the accumulators. */
  method SendInteger(minus: bool, a: Accumulated, ghost n: nat) returns (e: Event)
    requires !TooWide(minus, n) && (a.use64bit <==> PastUint32(minus, n))
    requires if a.use64bit then a.i64 as int == n else a.i as int == n
    ensures e == IntegerEvent(minus, n)
  {
    if a.use64bit {
      if minus { e := Int64Ev(Negated64(a.i64)); } else { e := Uint64Ev(a.i64 as int); }
    } else {
      if minus { e := IntEv(Negated32(a.i)); } else { e := UintEv(a.i as int); }
    }
  }

  method SendDouble(is_: StringStream, start: nat, convert: Converter) returns (o: Outcome)
    requires start <= is_.pos <= |is_.text|
    ensures o == DoubleFrom(is_.text, start, is_.pos, convert)
  {
    var image := convert(is_.text[start..is_.pos]);
    o := if image.None? then Failed([], NumberTooBig, start) else Done([DoubleEv(image.value)], is_.pos);
  }

  /** The exponent, if there is one, and the end of the literal. */
  method ExponentPart(is_: StringStream, start: nat, minus: bool, a: Accumulated, point: bool, folded: nat, ghost n: nat,
                      convert: Converter) returns (o: Outcome, ghost inRange: bool)
    requires start <= is_.pos <= |is_.text|
    requires (a.useDouble <==> TooWide(minus, n)) && (a.use64bit <==> PastUint32(minus, n))
    requires !a.useDouble ==> if a.use64bit then a.i64 as int == n else a.i as int == n
    modifies is_
    ensures o == ExponentFrom(is_.text, start, minus, n, old(is_.pos), folded, point || TooWide(minus, n), convert)
    ensures o.Done? ==> is_.pos == o.pos
    ensures inRange <==> ExponentInRange(is_.text, old(is_.pos), folded)
  {
    hide DigitsEnd, DigitsValue, DoubleFrom, IntegerEvent, NegativeFits, PositiveFits;
    inRange := InInt32(0 - folded);
    var e := is_.Consume('e' as int);
    if !e { e := is_.Consume('E' as int); }
    if !e {
      if point || a.useDouble {
        o := SendDouble(is_, start, convert);
      } else {
        var event := SendInteger(minus, a, n);
        o := Done([event], is_.pos);
      }
      return;
    }
    var exp, fate, fits := SignedExponent(is_, folded);
    match fate
    case NoDigits => return Failed([], NumberMissExponent, is_.pos), inRange && fits;
    case TooBig => return Failed([], NumberTooBig, start), inRange && fits;
    case Read =>
      inRange := inRange && fits && InInt32(exp - folded);
      o := SendDouble(is_, start, convert);
  }

  datatype ExponentFate = NoDigits | TooBig | Read

  /** The sign and the digits behind an `e`. */
  method SignedExponent(is_: StringStream, folded: nat) returns (exp: int, fate: ExponentFate, ghost fits: bool)
    requires is_.pos <= |is_.text|
    modifies is_
    ensures var sign := Peek(is_.text, old(is_.pos));
      var g := if sign == PLUS || sign == MINUS then old(is_.pos) + 1 else old(is_.pos);
      if !IsDigit(Peek(is_.text, g)) then fate == NoDigits && is_.pos == g && fits
      else
        var end := DigitsEnd(is_.text, g);
        && AllDigits(is_.text, g, end)
        && (fate == TooBig <==> sign != MINUS && DigitsValue(is_.text, g, end) > 308 + folded)
        && fate != NoDigits && (fate == Read ==> is_.pos == end)
        && (fits && (fate == Read ==> InInt32(exp - folded)))
           == (if sign == MINUS then NegativeFits(is_.text, g, end, folded) else PositiveFits(is_.text, g, end, folded))
  {
    hide DigitsEnd, DigitsValue, NegativeFits, PositiveFits;
    var expMinus := false;
    var plus := is_.Consume(PLUS);
    if !plus { expMinus := is_.Consume(MINUS); }
    var c := is_.Peek();
    if !IsDigit(c) { return 0, NoDigits, true; }
    ghost var g := is_.pos;
    if expMinus {
      fate := Read;
      exp, fits := NegativeExponent(is_, folded);
    } else {
      var tooBig;
      exp, tooBig, fits := PositiveExponent(is_, folded);
      fits := fits && InInt32(308 + folded);
      fate := if tooBig then TooBig else Read;
      PositiveExponentFits(is_.text, g, DigitsEnd(is_.text, g), folded);
    }
  }

  /** Once it and its limit fit, a positive exponent fits with `expFrac`, too. */
  lemma PositiveExponentFits(s: Bytes, g: nat, end: nat, folded: nat)
    requires AllDigits(s, g, end) && g < end
    ensures PositiveFits(s, g, end, folded) && DigitsValue(s, g, end) <= 308 + folded ==> InInt32(DigitsValue(s, g, end) - folded)
  {
    ValueGrows(s, g, end - 1, end);
    hide DigitsValue;
  }

  /** What follows the integer part `[q..r)`. */
  method AfterInteger(is_: StringStream, start: nat, minus: bool, a: Accumulated, ghost q: nat, convert: Converter)
    returns (o: Outcome, ghost inRange: bool)
    requires start <= q < is_.pos && AllDigits(is_.text, q, is_.pos) && Holds(is_.text, q, is_.pos, minus, a)
    modifies is_
    ensures o == FractionFrom(is_.text, start, minus, q, old(is_.pos), convert)
    ensures o.Done? ==> is_.pos == o.pos
    ensures inRange <==> FractionInRange(is_.text, minus, q, old(is_.pos))
  {
    hide DigitsEnd, DigitsValue, ExponentFrom, FoldedFraction, FoldedRounded, ExponentInRange;
    ghost var r := is_.pos;
    var point := is_.Consume(POINT);
    var folded := 0;
    if point {
      var c := is_.Peek();
      if !IsDigit(c) {
        return Failed([], NumberMissFraction, is_.pos), true;
      }
      folded := FractionPart(is_, if a.use64bit then a.i64 else a.i as uint64, a.useDouble, a.significandDigit);
      SameFolding(is_.text, q, r, minus, a, folded);
    }
    o, inRange := ExponentPart(is_, start, minus, a, point, folded, DigitsValue(is_.text, q, r), convert);
  }

  /** `ParseNumber`. The accumulators are 32 and 64 bits wide and never wrap; `inRange`
      says that every value the exponent counters take fits 32 bits. */
  method ParseNumber(is_: StringStream, convert: Converter) returns (o: Outcome, ghost inRange: bool)
    requires is_.pos <= |is_.text|
    modifies is_
    ensures o == NumberAt(is_.text, old(is_.pos), convert)
    ensures o.Done? ==> is_.pos == o.pos
    ensures inRange <==> NumberInRange(is_.text, old(is_.pos))
  {
    var start := is_.pos;
    var minus := is_.Consume(MINUS);
    ghost var q := is_.pos;
    var found, a := IntegerPart(is_, minus);
    if !found {
      return Failed([], ValueInvalid, is_.pos), true;
    }
    hide FractionFrom, FractionInRange;
    o, inRange := AfterInteger(is_, start, minus, a, q, convert);
  }
}
