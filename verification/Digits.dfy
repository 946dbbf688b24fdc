/** Facts about runs of decimal digits that the number parser relies on. */
module Digits {
  import opened Common
  import opened Tokens

  predicate AllDigits(s: Bytes, p: nat, q: nat) {
    p <= q <= |s| && forall i | p <= i < q :: IsDigit(s[i])
  }

  lemma NextDigit(s: Bytes, p: nat, q: nat)
    requires p <= q < |s| && AllDigits(s, p, q + 1)
    ensures DigitsValue(s, p, q + 1) == DigitsValue(s, p, q) * 10 + (s[q] - '0' as int)
  {
    assert s[p..q + 1][..q - p] == s[p..q];
  }

  /** The value only grows as digits are read, and strictly by the next digit. */
  lemma {:induction false} ValueGrows(s: Bytes, p: nat, q: nat, r: nat)
    requires p <= q <= r <= |s| && AllDigits(s, p, r)
    ensures DigitsValue(s, p, q) <= DigitsValue(s, p, r)
    ensures q < r ==> DigitsValue(s, p, q) * 10 + (s[q] - '0' as int) <= DigitsValue(s, p, r)
    decreases r
  {
    if q < r {
      ValueGrows(s, p, q, r - 1);
      NextDigit(s, p, r - 1);
      assert IsDigit(s[r - 1]);
    }
  }

  lemma {:induction false} ValueBelowPower(s: Bytes, p: nat, q: nat)
    requires AllDigits(s, p, q)
    ensures DigitsValue(s, p, q) < Pow(10, q - p)
    decreases q
  {
    if p < q {
      ValueBelowPower(s, p, q - 1);
      NextDigit(s, p, q - 1);
      assert IsDigit(s[q - 1]);
    }
  }

  lemma {:induction false} PowerGrows(a: nat, b: nat)
    requires a <= b
    ensures Pow(10, a) <= Pow(10, b)
  {
    if a < b { PowerGrows(a, b - 1); }
  }

  lemma {:induction false} EndAfterDigit(s: Bytes, p: nat)
    requires p < |s| && IsDigit(s[p])
    ensures DigitsEnd(s, p) == DigitsEnd(s, p + 1) && p < DigitsEnd(s, p)
  {
  }

  /** Any position inside a run of digits sees the same end. */
  lemma {:induction false} EndAhead(s: Bytes, p: nat, q: nat)
    requires p <= q <= DigitsEnd(s, p) && p <= |s|
    ensures DigitsEnd(s, q) == DigitsEnd(s, p)
    decreases q - p
  {
    if p < q { EndAhead(s, p + 1, q); }
  }

  /** With 17 significant digits read, no further digit scales the exponent. */
  lemma {:induction false} NothingFolded(s: Bytes, i: nat, positive: bool, significant: nat)
    requires i <= |s| && significant >= 17
    ensures FoldedRounded(s, i, positive, significant) == 0
    decreases |s| - i
  {
    if i < |s| && IsDigit(s[i]) { NothingFolded(s, i + 1, positive, significant); }
  }

  lemma Ten17()
    ensures Pow(10, 17) == 100_000_000_000_000_000
  {
    assert Pow(10, 4) == 10_000;
    assert Pow(10, 8) == 100_000_000;
    assert Pow(10, 12) == 1_000_000_000_000;
    assert Pow(10, 16) == 10_000_000_000_000_000;
  }

  /** A number of 18 digits or more is needed to reach the 64-bit guards. */
  lemma WideHasManyDigits(s: Bytes, p: nat, q: nat)
    requires AllDigits(s, p, q) && DigitsValue(s, p, q) >= 0x0CCC_CCCC_CCCC_CCCC
    ensures q - p >= 18
  {
    ValueBelowPower(s, p, q);
    Ten17();
    if q - p < 18 { PowerGrows(q - p, 17); }
  }

  lemma {:induction false} FoldedBound(s: Bytes, i: nat, positive: bool, significant: nat)
    requires i <= |s|
    ensures FoldedRounded(s, i, positive, significant) <= DigitsEnd(s, i) - i
    decreases |s| - i
  {
    if i < |s| && IsDigit(s[i]) {
      var p := positive || s[i] != '0' as int;
      if significant < 17 { FoldedBound(s, i + 1, p, if p then significant + 1 else significant); }
      else { FoldedBound(s, i + 1, positive, significant); }
    }
  }

  lemma {:induction false} RoundedAll(s: Bytes, i: nat, positive: bool, significant: nat)
    requires i <= |s| && significant + (DigitsEnd(s, i) - i) <= 17
    ensures FoldedRounded(s, i, positive, significant) == DigitsEnd(s, i) - i
    decreases |s| - i
  {
    if i < |s| && IsDigit(s[i]) {
      EndAfterDigit(s, i);
      var p := positive || s[i] != '0' as int;
      RoundedAll(s, i + 1, p, if p then significant + 1 else significant);
    }
  }

  lemma {:induction false} ExactCounts(s: Bytes, i: nat, significand: nat, significant: nat)
    requires i <= |s|
    ensures var (k, m, d) := FoldedExact(s, i, significand, significant); d <= significant + (k - i)
    decreases |s| - i
  {
    if i < |s| && IsDigit(s[i]) && significand <= 0x1F_FFFF_FFFF_FFFF {
      var next := significand * 10 + (s[i] - '0' as int);
      ExactCounts(s, i + 1, next, if next != 0 then significant + 1 else significant);
    }
  }

  /** Where integer part and fraction have at most eighteen digits, every digit of the fraction
      scales the exponent. */
  lemma AllFolded(s: Bytes, i: nat, n: nat, digits: nat, big: bool)
    requires i <= |s| && 0 < digits && digits + (DigitsEnd(s, i) - i) <= 18
    ensures FoldedFraction(s, i, n, digits, big) == DigitsEnd(s, i) - i
  {
    if big {
      RoundedAll(s, i, true, digits - 1);
    } else {
      var (k, m, d) := FoldedExact(s, i, n, digits - 1);
      ExactCounts(s, i, n, digits - 1);
      EndAhead(s, i, k);
      RoundedAll(s, k, m > 0, d);
    }
  }

  /** No more digits are folded into the exponent than the fraction has. */
  lemma FoldedFractionBound(s: Bytes, i: nat, n: nat, digits: nat, big: bool)
    requires i <= |s|
    ensures FoldedFraction(s, i, n, digits, big) <= DigitsEnd(s, i) - i
  {
    var significant := if digits > 0 then digits - 1 else 0;
    if big {
      FoldedBound(s, i, true, significant);
    } else {
      var (k, m, d) := FoldedExact(s, i, n, significant);
      EndAhead(s, i, k);
      FoldedBound(s, k, m > 0, d);
    }
  }

  /** A run of digits read in two parts. */
  lemma {:induction false} ValueSplits(s: Bytes, p: nat, q: nat, r: nat)
    requires p <= q <= r && AllDigits(s, p, r)
    ensures DigitsValue(s, p, r) == DigitsValue(s, p, q) * Pow(10, r - q) + DigitsValue(s, q, r)
    decreases r
  {
    if q < r {
      ValueSplits(s, p, q, r - 1);
      NextDigit(s, p, r - 1);
      NextDigit(s, q, r - 1);
      TimesTen(DigitsValue(s, p, q), Pow(10, r - 1 - q));
    }
  }
}
