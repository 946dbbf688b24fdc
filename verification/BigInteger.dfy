/** The fixed-capacity big integer of the exact decimal conversions, updated in place.

    Every operation is specified by the number the limbs denote, lowest limb first. The
    arithmetic of one limb is split off into lemmas on natural numbers, so that each loop
    only carries how far it has got and what is still to be added above. */
module BigIntegers {
  import opened Common
  import opened Difference
  import opened Digits
  import opened Limbs
  import opened Tokens
  import opened WordArithmetic

  const CAPACITY: nat := 416
  const TYPE_BIT: nat := 64

  const POW_5: seq<Limb> := [5, 25, 125, 625, 3125, 15625, 78125, 390625, 1953125, 9765625, 48828125, 244140625]

  lemma PowersOfFive()
    ensures Pow(5, 0) == 1 && Pow(5, 13) == 1220703125 && Pow(5, 27) == 0x6765_C793_FA10_079D
    ensures forall i | 0 <= i < 12 :: POW_5[i] == Pow(5, i + 1)
  {
    SmallPowersOfFive();
    assert Pow(5, 13) == 5 * Pow(5, 12);
    hide Pow;
    PowAdds(5, 13, 13);
    PowAdds(5, 26, 1);
  }

  lemma SmallPowersOfFive()
    ensures Pow(5, 0) == 1 && Pow(5, 1) == 5
    ensures forall i | 0 <= i < 12 :: POW_5[i] == Pow(5, i + 1)
  {
    var p := Pow(5, 0);
    assert Pow(5, 1) == 5;
    assert Pow(5, 4) == 625 && Pow(5, 3) == 125 && Pow(5, 2) == 25;
    assert Pow(5, 8) == 390625 && Pow(5, 7) == 78125 && Pow(5, 6) == 15625 && Pow(5, 5) == 3125;
    assert Pow(5, 12) == 244140625 && Pow(5, 11) == 48828125 && Pow(5, 10) == 9765625 && Pow(5, 9) == 1953125;
  }

  lemma PowPositive(b: nat, e: nat)
    requires b > 0
    ensures Pow(b, e) >= 1
  {
  }

  lemma {:induction false} TenIsTwoFives(e: nat)
    ensures Pow(10, e) == Pow(5, e) * Pow(2, e)
  {
    if e > 0 {
      TenIsTwoFives(e - 1);
      var a, b := Pow(5, e - 1), Pow(2, e - 1);
      assert 10 * (a * b) == (5 * a) * (2 * b);
    }
  }

  lemma TenPower19()
    ensures Pow(10, 19) == 10_000_000_000_000_000_000 < B
  {
    Ten17();
    assert Pow(10, 18) == 10 * Pow(10, 17);
    assert Pow(10, 19) == 10 * Pow(10, 18);
  }

  /** A thousand is below 2^10, so 3m decimal digits fit 10m bits. */
  lemma {:induction false} ThousandsFit(m: nat)
    requires m > 0
    ensures Pow(10, 3 * m) < Pow(2, 10 * m)
  {
    assert Pow(10, 3) == 1000 && Pow(2, 10) == 1024;
    if m > 1 {
      ThousandsFit(m - 1);
      hide Pow;
      PowAdds(10, 3, 3 * (m - 1));
      PowAdds(2, 10, 10 * (m - 1));
      PowPositive(10, 3 * (m - 1));
    }
  }

  /** 7968 digits stay below 2^26560, the weight of word 415. */
  lemma DecimalBound()
    ensures Pow(10, 7968) < P(415) < P(416)
  {
    hide Pow, P;
    ThousandsFit(2656);
    WeightIsPow(415);
    NextWeight(415);
  }

  lemma NextWeight(i: nat)
    ensures P(i) < P(i + 1)
  {
  }

  // ----- one limb of each operation, as arithmetic -----

  lemma MulStep(v: nat, w: nat, x: nat, u: nat, k: nat, hi: nat, lo: nat, p: nat)
    requires v + k * p == w * u && x * u + k == hi * B + lo
    ensures v + lo * p + hi * (B * p) == (w + x * p) * u
  {
    assert (w + x * p) * u == w * u + (x * u) * p;
    assert (x * u + k) * p == (x * u) * p + k * p;
    assert (hi * B + lo) * p == hi * (B * p) + lo * p;
  }

  /** One limb of the 32-bit multiplication. */
  lemma HalfStep(x: Limb, u: nat, k: nat)
    requires u < H && k < H
    ensures var uc, ud := u * High(x), u * Low(x);
      0 <= ud + k < B && 0 <= uc + High(ud + k) < B &&
      var p0: Limb := ud + k;
      var p1: Limb := uc + High(p0);
      x * u + k == High(p1) * B + (Low(p0) + Low(p1) * H)
  {
    ProductBound(u, High(x), H);
    ProductBound(u, Low(x), H);
    assert x * u == (High(x) * H + Low(x)) * u == (u * High(x)) * H + u * Low(x);
  }

  class BigInteger {
    const digits_: array<Limb>
    var count_: nat

    ghost predicate Valid()
      reads this, digits_
    {
      digits_.Length == CAPACITY && 1 <= count_ <= CAPACITY && Normal(digits_[..count_])
    }

    ghost function Value(): nat
      requires count_ <= digits_.Length
      reads this, digits_
    {
      Val(digits_[..count_])
    }

    constructor (u: Limb)
      ensures Valid() && fresh(digits_) && Value() == u && count_ == 1
    {
      digits_ := new Limb[CAPACITY](i => 0);
      count_ := 1;
      new;
      digits_[0] := u;
      OneLimb(digits_[..1]);
    }

    static lemma OneLimb(s: seq<Limb>)
      requires |s| == 1
      ensures Val(s) == s[0] && Normal(s)
    {
      assert s[..0] == [];
    }

    method Assign(u: Limb)
      requires Valid()
      modifies this, digits_
      ensures Valid() && Value() == u && count_ == 1
    {
      digits_[0] := u;
      count_ := 1;
      OneLimb(digits_[..1]);
    }

    method IsZero() returns (r: bool)
      requires Valid()
      ensures r <==> Value() == 0
    {
      r := count_ == 1 && digits_[0] == 0;
      if count_ == 1 { OneLimb(digits_[..1]); } else { ValLower(digits_[..count_]); }
    }

    method PushBack(digit: Limb)
      requires digits_.Length == CAPACITY && count_ < CAPACITY && digit != 0
      modifies this, digits_
      ensures count_ == old(count_) + 1 && digits_[..count_] == old(digits_[..count_]) + [digit]
      ensures Valid() && Value() == old(Value()) + digit * P(old(count_))
    {
      digits_[count_] := digit;
      count_ := count_ + 1;
      ValSnoc(old(digits_[..count_]), digit);
      assert digits_[..count_] == old(digits_[..count_]) + [digit];
    }

    /** `r` is `s + u` up to limb `i`, whose carry is still to be added above it. */
    static ghost predicate Rippling(s: seq<Limb>, r: seq<Limb>, i: nat, u: nat, carry: bool)
      requires i < |s| == |r|
    {
      r[i + 1..] == s[i + 1..] && Val(r[..i + 1]) + (if carry then P(i + 1) else 0) == Val(s[..i + 1]) + u
    }

    /** `operator+=`: the carry ripples up and stops at the first limb that does not wrap. */
    method Add(u: Limb)
      requires Valid() && Value() + u < P(CAPACITY)
      modifies this, digits_
      ensures Valid() && Value() == old(Value()) + u
    {
      hide P;
      ghost var s, r := digits_[..count_], digits_[..count_];
      var backup := digits_[0];
      digits_[0] := Plus(digits_[0], u);
      r := digits_[..count_];
      FirstLimb(s, r, u);
      hide Rippling, Plus, Val;
      var i := 0;
      while i < count_ - 1
        invariant 0 <= i < |s| == |r| == count_ <= digits_.Length == CAPACITY && r == digits_[..count_]
        invariant Rippling(s, r, i, u, digits_[i] < backup)
        invariant i > 0 && digits_[i] >= backup ==> digits_[i] != 0
      {
        if digits_[i] >= backup {
          NoCarry(s, r, i, u);
          return;
        }
        backup := digits_[i + 1];
        RippleStep(s, r, i, u);
        digits_[i + 1] := Plus(digits_[i + 1], 1);
        r := digits_[..count_];
        i := i + 1;
      }
      CarryOut(s, r, u, digits_[i] < backup);
      if digits_[count_ - 1] < backup { PushBack(1); }
    }

    static lemma FirstLimb(s: seq<Limb>, r: seq<Limb>, u: Limb)
      requires s != [] && r == s[0 := Plus(s[0], u)]
      ensures Rippling(s, r, 0, u, r[0] < s[0])
    {
      CarryShows(u, s[0]);
      OneLimb(s[..1]);
      OneLimb(r[..1]);
    }

    static lemma RippleStep(s: seq<Limb>, r: seq<Limb>, i: nat, u: nat)
      requires i + 1 < |s| == |r| && Rippling(s, r, i, u, true)
      ensures var t := r[i + 1 := Plus(r[i + 1], 1)];
        Rippling(s, t, i + 1, u, t[i + 1] < r[i + 1]) && (t[i + 1] >= r[i + 1] ==> t[i + 1] != 0)
    {
      var t := r[i + 1 := Plus(r[i + 1], 1)];
      assert r[i + 1] == r[i + 1..][0] == s[i + 1];
      assert t[i + 2..] == r[i + 1..][1..] == s[i + 2..];
      assert t[..i + 1] == r[..i + 1];
      ValStep(t, i + 1);
      ValStep(s, i + 1);
      CarryShows(1, r[i + 1]);
      CarryStep(r[i + 1], t[i + 1], P(i + 1));
    }

    static lemma CarryStep(x: Limb, y: Limb, p: nat)
      requires x + 1 == y + (if y < x then B else 0)
      ensures (x + 1) * p == y * p + (if y < x then B * p else 0)
      ensures (x + 1) * p == x * p + p
    {
    }

    /** The last limb: what is left over goes into a limb of its own, which there is
        room for. */
    static lemma CarryOut(s: seq<Limb>, r: seq<Limb>, u: nat, carry: bool)
      requires |s| == |r| != 0 && Rippling(s, r, |s| - 1, u, carry)
      ensures Val(r) + (if carry then P(|s|) else 0) == Val(s) + u
      ensures Val(s) + u < P(CAPACITY) && |s| <= CAPACITY && carry ==> |s| < CAPACITY
    {
      assert s[..|s|] == s && r[..|r|] == r;
    }

    /** An addition that ends at limb `i`: everything above is as it was. */
    static lemma NoCarry(s: seq<Limb>, r: seq<Limb>, i: nat, u: nat)
      requires i + 1 < |s| == |r| && Rippling(s, r, i, u, false) && Normal(s)
      ensures Val(r) == Val(s) + u && Normal(r)
    {
      CommonTop(r, s, i + 1);
      assert r[|s| - 1] == r[i + 1..][|s| - 2 - i] == s[|s| - 1];
    }

    // ----- multiplication -----

    /** The limbs below `i` hold the product so far, with `k` still to be added above. */
    static ghost predicate Multiplying(s: seq<Limb>, r: seq<Limb>, i: nat, u: nat, k: nat)
      requires i <= |s| == |r|
    {
      r[i..] == s[i..] && Val(r[..i]) + k * P(i) == Val(s[..i]) * u
    }

    static lemma MultiplyStarts(s: seq<Limb>, u: nat)
      ensures Multiplying(s, s, 0, u, 0)
    {
      assert s[..0] == [];
    }

    static lemma MultiplyStep(s: seq<Limb>, r: seq<Limb>, i: nat, u: nat, k: nat, lo: Limb, hi: nat)
      requires i < |s| == |r| && Multiplying(s, r, i, u, k) && r[i] * u + k == hi * B + lo
      ensures r[i] == s[i] && Multiplying(s, r[i := lo], i + 1, u, hi)
    {
      var t := r[i := lo];
      assert r[i] == r[i..][0] == s[i];
      assert t[i + 1..] == r[i..][1..] == s[i + 1..];
      assert t[..i] == r[..i];
      ValStep(t, i);
      ValStep(s, i);
      MulStep(Val(r[..i]), Val(s[..i]), s[i], u, k, hi, lo, P(i));
    }

    /** What is left after the last limb gets a limb of its own, which there is room for. */
    static lemma MultiplyEnds(s: seq<Limb>, r: seq<Limb>, u: nat, k: nat)
      requires |s| == |r| != 0 && Multiplying(s, r, |s|, u, k)
      ensures Val(r) + k * P(|s|) == Val(s) * u
      ensures k > 0 && Val(s) * u < P(CAPACITY) && |s| <= CAPACITY ==> |s| < CAPACITY
    {
      hide P;
      assert s[..|s|] == s && r[..|r|] == r;
      if k > 0 { Times(1, k, P(|s|)); }
    }

    /** The top limb of a product is not zero. */
    static lemma TopNonZero(x: nat, u: nat, k: nat, lo: nat)
      requires x > 0 && u > 0 && x * u + k == lo
      ensures lo > 0
    {
      Times(1, x, u);
    }

    /** `operator*=` by a 64-bit word. */
    method Multiply64(u: Limb)
      requires Valid() && Value() * u < P(CAPACITY)
      modifies this, digits_
      ensures Valid() && Value() == old(Value()) * u
    {
      hide P;
      if u == 0 { Assign(0); return; }
      if u == 1 { return; }
      if count_ == 1 { OneLimb(digits_[..1]); }
      if count_ == 1 && digits_[0] == 1 { Assign(u); return; }
      ghost var s, r := digits_[..count_], digits_[..count_];
      MultiplyStarts(s, u);
      hide Multiplying, Val;
      var k: Limb, i := 0, 0;
      while i < count_
        invariant 0 <= i <= |s| == |r| == count_ <= digits_.Length == CAPACITY && r == digits_[..count_]
        invariant Multiplying(s, r, i, u, k)
        invariant i == |s| > 1 && k == 0 ==> r[i - 1] != 0
      {
        ghost var x := digits_[i];
        var lo, hi := MulAdd64(digits_[i], u, k);
        MultiplyStep(s, r, i, u, k, lo, hi);
        if x > 0 && hi == 0 { TopNonZero(x, u, k, lo); }
        digits_[i], k := lo, hi;
        r := digits_[..count_];
        i := i + 1;
      }
      MultiplyEnds(s, r, u, k);
      if k > 0 { PushBack(k); }
    }

    /** `operator*=` by a 32-bit word, which needs no wider product. */
    method Multiply32(u: Limb)
      requires u < H && Valid() && Value() * u < P(CAPACITY)
      modifies this, digits_
      ensures Valid() && Value() == old(Value()) * u
    {
      hide P;
      if u == 0 { Assign(0); return; }
      if u == 1 { return; }
      if count_ == 1 { OneLimb(digits_[..1]); }
      if count_ == 1 && digits_[0] == 1 { Assign(u); return; }
      ghost var s, r := digits_[..count_], digits_[..count_];
      MultiplyStarts(s, u);
      hide Multiplying, Val;
      var k: Limb, i := 0, 0;
      while i < count_
        invariant 0 <= i <= |s| == |r| == count_ <= digits_.Length == CAPACITY && r == digits_[..count_]
        invariant Multiplying(s, r, i, u, k) && k < H
        invariant i == |s| > 1 && k == 0 ==> r[i - 1] != 0
      {
        ghost var x := digits_[i];
        var lo, hi := HalfWords(digits_[i], u, k);
        MultiplyStep(s, r, i, u, k, lo, hi);
        if x > 0 && hi == 0 { TopNonZero(x, u, k, lo); }
        digits_[i], k := lo, hi;
        r := digits_[..count_];
        i := i + 1;
      }
      MultiplyEnds(s, r, u, k);
      if k > 0 { PushBack(k); }
    }

    /** One limb times 32 bits, in two half-word products. */
    static method HalfWords(x: Limb, u: Limb, k: Limb) returns (lo: Limb, hi: Limb)
      requires u < H && k < H
      ensures x * u + k == hi * B + lo && hi < H
    {
      HalfStep(x, u, k);
      var c, d := High(x), Low(x);
      var uc: Limb := u * c;
      var ud: Limb := u * d;
      var p0: Limb := ud + k;
      var p1: Limb := uc + High(p0);
      ShiftHalf(p1);
      lo := Low(p0) + ShiftedLeft(p1, H);
      hi := High(p1);
    }

    // ----- shifting -----

    /** `(x << s) | (y >> (64 - s))`, where `f` is 2 to the `s` and `g` the rest of a word. */
    static function Funnel(x: Limb, y: Limb, f: nat, g: nat): Limb
      requires f > 0 && g > 0 && f * g == B
    {
      FunnelFits(x, y, f, g);
      ShiftedLeft(x, f) + y / g
    }

    static lemma FunnelFits(x: Limb, y: Limb, f: nat, g: nat)
      requires f > 0 && g > 0 && f * g == B
      ensures x * f == (x / g) * B + ShiftedLeft(x, f)
      ensures y / g < f && ShiftedLeft(x, f) + y / g < B
    {
      var q, r := x / g, x % g;
      assert x == q * g + r;
      assert x * f == q * (f * g) + r * f;
      Times(r, g - 1, f);
      assert (g - 1) * f == B - f;
      ModPlus(q, r * f);
      QuotientBelow(y, f, g);
    }

    static lemma QuotientBelow(y: nat, f: nat, g: nat)
      requires g > 0 && y < f * g
      ensures y / g < f
    {
      if y / g >= f { Times(f, y / g, g); }
    }

    /** The limbs of `s` shifted left by less than a word, without what leaves the top. */
    static function Shifted(s: seq<Limb>, f: nat, g: nat): (r: seq<Limb>)
      requires f > 0 && g > 0 && f * g == B
      ensures |r| == |s|
    {
      if s == [] then [] else
        var n := |s| - 1;
        Shifted(s[..n], f, g) + [Funnel(s[n], if n > 0 then s[n - 1] else 0, f, g)]
    }

    static lemma {:induction false} ShiftedAt(s: seq<Limb>, f: nat, g: nat, j: nat)
      requires f > 0 && g > 0 && f * g == B && j < |s|
      ensures Shifted(s, f, g)[j] == Funnel(s[j], if j > 0 then s[j - 1] else 0, f, g)
    {
      if j < |s| - 1 { ShiftedAt(s[..|s| - 1], f, g, j); }
    }

    static lemma {:induction false} ShiftedVal(s: seq<Limb>, f: nat, g: nat)
      requires f > 0 && g > 0 && f * g == B && s != []
      ensures Val(Shifted(s, f, g)) + (s[|s| - 1] / g) * P(|s|) == Val(s) * f
    {
      var n := |s| - 1;
      var t := Shifted(s[..n], f, g);
      var y: Limb := if n > 0 then s[n - 1] else 0;
      if n > 0 {
        ShiftedVal(s[..n], f, g);
        assert s[..n][n - 1] == y;
      } else {
        ZeroQuotient(g);
      }
      var lo := Funnel(s[n], y, f, g);
      ValSnoc(t, lo);
      FunnelFits(s[n], y, f, g);
      assert Val(t) + (y / g) * P(n) == Val(s[..n]) * f;
      MulStep(Val(t), Val(s[..n]), s[n], f, y / g, s[n] / g, lo, P(n));
    }

    static lemma ZeroQuotient(g: nat)
      requires g > 0
      ensures 0 / g == 0
    {
    }

    /** The limbs a shift by `offset` words and `f` leaves, lowest first. */
    static ghost predicate IsShifted(s: seq<Limb>, r: seq<Limb>, offset: nat, f: nat, g: nat)
      requires f > 0 && g > 0 && f * g == B
    {
      |s| > 0 && |r| == offset + |s| + 1
      && (forall j | 0 <= j < offset :: r[j] == 0)
      && r[offset..offset + |s|] == Shifted(s, f, g)
      && r[offset + |s|] == s[|s| - 1] / g
    }

    static lemma ShiftedValue(s: seq<Limb>, r: seq<Limb>, offset: nat, f: nat, g: nat)
      requires f > 0 && g > 0 && f * g == B && IsShifted(s, r, offset, f, g)
      ensures Val(r) == Val(s) * f * P(offset)
    {
      SplitShift(s, r, offset, f, g);
      ShiftedWithTop(s, f, g);
      hide *;
      OverZeros(r, r[..offset], r[offset..]);
    }

    static lemma ShiftedWithTop(s: seq<Limb>, f: nat, g: nat)
      requires f > 0 && g > 0 && f * g == B && s != []
      ensures 0 <= s[|s| - 1] / g < B && Val(Shifted(s, f, g) + [s[|s| - 1] / g]) == Val(s) * f
    {
      ShiftedVal(s, f, g);
      FunnelFits(0, s[|s| - 1], f, g);
      Times(1, g, f);
      ValSnoc(Shifted(s, f, g), s[|s| - 1] / g);
    }

    static lemma OverZeros(r: seq<Limb>, low: seq<Limb>, high: seq<Limb>)
      requires r == low + high && forall i | 0 <= i < |low| :: low[i] == 0
      ensures Val(r) == Val(high) * P(|low|)
    {
      hide *;
      ValAppend(low, high);
      ValZeros(low);
      assert P(|low|) * Val(high) == Val(high) * P(|low|);
    }

    static lemma SplitShift(s: seq<Limb>, r: seq<Limb>, offset: nat, f: nat, g: nat)
      requires f > 0 && g > 0 && f * g == B && IsShifted(s, r, offset, f, g)
      ensures r == r[..offset] + r[offset..] && r[offset..] == Shifted(s, f, g) + [s[|s| - 1] / g]
      ensures forall i | 0 <= i < offset :: r[..offset][i] == 0
    {
      hide Shifted;
      var high := Shifted(s, f, g) + [s[|s| - 1] / g];
      forall i | 0 <= i < |s|
        ensures r[offset..][i] == high[i]
      {
        assert r[offset..][i] == r[offset..offset + |s|][i];
      }
    }

    /** A zero limb on top adds nothing, and the one below it is not zero. */
    static lemma DropTop(s: seq<Limb>, r: seq<Limb>, offset: nat, f: nat, g: nat)
      requires f > 0 && g > 0 && f * g == B && IsShifted(s, r, offset, f, g) && s[|s| - 1] != 0
      requires r[|r| - 1] == 0
      ensures Val(r[..|r| - 1]) == Val(r) && r[|r| - 2] != 0
    {
      var n := |s|;
      ShiftedAt(s, f, g, n - 1);
      assert r[offset + n - 1] == r[offset..offset + n][n - 1];
      FunnelFits(s[n - 1], if n > 1 then s[n - 2] else 0, f, g);
      assert s[n - 1] / g == 0;
      Times(1, f, s[n - 1]);
    }

    /** What limb `j` of the shifted number is. */
    static function FunnelAt(s: seq<Limb>, j: nat, f: nat, g: nat): Limb
      requires f > 0 && g > 0 && f * g == B && j <= |s|
    {
      Funnel(if j < |s| then s[j] else 0, if j > 0 then s[j - 1] else 0, f, g)
    }

    /** The shift inside words: from the top down, each limb from itself and its lower
        neighbour. */
    method FunnelDown(offset: nat, f: nat, g: nat)
      requires f > 0 && g > 0 && f * g == B
      requires digits_.Length == CAPACITY && 0 < count_ && count_ + offset < CAPACITY
      modifies digits_
      ensures forall j | offset <= j <= offset + count_ ::
                digits_[j] == FunnelAt(old(digits_[..count_]), j - offset, f, g)
      ensures forall j | offset + count_ < j < CAPACITY :: digits_[j] == old(digits_[j])
    {
      ghost var s, n := digits_[..count_], count_;
      digits_[count_] := 0;
      FirstFunnel(s[0], f, g);
      hide Funnel, ShiftedLeft;
      var i := count_;
      while i > 0
        invariant 0 <= i <= n == count_
        invariant forall j | 0 <= j <= i :: digits_[j] == if j < n then s[j] else 0
        invariant forall j | offset + i < j <= offset + n :: digits_[j] == FunnelAt(s, j - offset, f, g)
        invariant forall j | offset + n < j < CAPACITY :: digits_[j] == old(digits_[j])
      {
        digits_[i + offset] := Funnel(digits_[i], digits_[i - 1], f, g);
        i := i - 1;
      }
      digits_[offset] := ShiftedLeft(digits_[0], f);
    }

    /** The words below a shift are cleared. */
    method ClearBelow(offset: nat)
      requires offset <= digits_.Length
      modifies digits_
      ensures forall j | 0 <= j < digits_.Length :: digits_[j] == if j < offset then 0 else old(digits_[j])
    {
      var i := 0;
      while i < offset
        invariant 0 <= i <= offset
        invariant forall j | 0 <= j < digits_.Length :: digits_[j] == if j < i then 0 else old(digits_[j])
      {
        digits_[i] := 0;
        i := i + 1;
      }
    }

    static lemma FunnelsShift(s: seq<Limb>, r: seq<Limb>, offset: nat, f: nat, g: nat)
      requires f > 0 && g > 0 && f * g == B && |s| > 0 && |r| == offset + |s| + 1
      requires forall j | 0 <= j < |r| :: r[j] == if j < offset then 0 else FunnelAt(s, j - offset, f, g)
      ensures IsShifted(s, r, offset, f, g)
    {
      FunnelOfZero(s[|s| - 1], f, g);
      hide Funnel;
      forall j | 0 <= j < |s|
        ensures r[offset + j] == Shifted(s, f, g)[j]
      {
        ShiftedAt(s, f, g, j);
      }
    }

    static lemma FunnelOfZero(y: Limb, f: nat, g: nat)
      requires f > 0 && g > 0 && f * g == B
      ensures Funnel(0, y, f, g) == y / g
    {
    }

    static lemma FirstFunnel(x: Limb, f: nat, g: nat)
      requires f > 0 && g > 0 && f * g == B
      ensures Funnel(x, 0, f, g) == ShiftedLeft(x, f)
    {
      ZeroQuotient(g);
    }

    /** Words moved up unchanged. */
    method MoveUp(offset: nat)
      requires digits_.Length == CAPACITY && count_ + offset <= CAPACITY
      modifies digits_
      ensures forall j | offset <= j < offset + count_ :: digits_[j] == old(digits_[j - offset])
      ensures forall j | offset + count_ <= j < CAPACITY :: digits_[j] == old(digits_[j])
    {
      ghost var s := digits_[..count_];
      forall j | offset <= j < offset + count_ { digits_[j] := digits_[j - offset]; }
    }

    /** The words moved up, and zeros below them. */
    method MoveAndClear(offset: nat)
      requires digits_.Length == CAPACITY && count_ + offset <= CAPACITY
      modifies digits_
      ensures Moved(old(digits_[..count_]), digits_[..offset + count_], offset)
      ensures forall j | offset + count_ <= j < CAPACITY :: digits_[j] == old(digits_[j])
    {
      MoveUp(offset);
      ClearBelow(offset);
    }

    /** The same words behind `offset` zeros. */
    static predicate Moved(s: seq<Limb>, r: seq<Limb>, offset: nat) {
      |r| == offset + |s| && forall j | 0 <= j < |r| :: r[j] == if j < offset then 0 else s[j - offset]
    }

    /** `operator<<=` by whole words. */
    method ShiftWords(offset: nat)
      requires Valid() && Value() > 0 && count_ + offset <= CAPACITY
      modifies this, digits_
      ensures Valid() && Value() == old(Value()) * P(offset)
      ensures forall j | offset + old(count_) <= j < CAPACITY :: digits_[j] == old(digits_[j])
    {
      ghost var s := digits_[..count_];
      NonZeroTop(s);
      hide Val, P, Moved;
      MoveAndClear(offset);
      count_ := count_ + offset;
      WholeWords(s, digits_[..count_], offset);
    }

    /** `operator<<=` by words and a part of one. */
    method ShiftInside(offset: nat, f: nat, g: nat)
      requires f > 0 && g > 0 && f * g == B
      requires Valid() && Value() > 0 && count_ + offset < CAPACITY
      modifies this, digits_
      ensures Valid() && Value() == old(Value()) * f * P(offset)
      ensures forall j | offset + old(count_) < j < CAPACITY :: digits_[j] == old(digits_[j])
    {
      ghost var s, n := digits_[..count_], count_;
      NonZeroTop(s);
      hide Val, P, FunnelAt, IsShifted;
      FillShifted(offset, f, g);
      ghost var r := digits_[..offset + n + 1];
      ShiftedValue(s, r, offset, f, g);
      count_ := count_ + offset;
      if digits_[count_] != 0 {
        count_ := count_ + 1;
      } else {
        DropTop(s, r, offset, f, g);
        assert digits_[..count_] == r[..|r| - 1];
      }
    }

    /** The words of the shifted number. */
    method FillShifted(offset: nat, f: nat, g: nat)
      requires f > 0 && g > 0 && f * g == B
      requires digits_.Length == CAPACITY && 0 < count_ && count_ + offset < CAPACITY
      modifies digits_
      ensures IsShifted(old(digits_[..count_]), digits_[..offset + count_ + 1], offset, f, g)
      ensures forall j | offset + count_ < j < CAPACITY :: digits_[j] == old(digits_[j])
    {
      ghost var s := digits_[..count_];
      hide FunnelAt, IsShifted;
      FunnelDown(offset, f, g);
      ClearBelow(offset);
      FunnelsShift(s, digits_[..offset + count_ + 1], offset, f, g);
    }

    /** The highest word a shift of `count` words writes: inside words, one more than it may
        end up using. */
    static function HighestWritten(count: nat, shift: nat): nat
      requires count > 0
    {
      if shift % TYPE_BIT == 0 then count + shift / TYPE_BIT - 1 else count + shift / TYPE_BIT
    }

    /** The assertion of `operator<<=` holds and yet the shift writes outside the words,
        exactly when the shifted words fill the capacity and the shift is not by whole words. */
    static lemma AssertionTooWeak(count: nat, shift: nat)
      requires count > 0 && count + shift / TYPE_BIT <= CAPACITY
      ensures HighestWritten(count, shift) < CAPACITY <==> !(count + shift / TYPE_BIT == CAPACITY && shift % TYPE_BIT != 0)
    {
    }

    /** For instance a number of 415 words shifted by 65 bits, or one of 416 words by one bit. */
    static lemma WritesOutside()
      ensures 415 + 65 / TYPE_BIT <= CAPACITY && HighestWritten(415, 65) == CAPACITY
      ensures 416 + 1 / TYPE_BIT <= CAPACITY && HighestWritten(416, 1) == CAPACITY
    {
    }

    /** `operator<<=`. Where it writes inside the words, it multiplies by the power of two and
        leaves every word above the highest written alone. */
    method ShiftLeft(shift: nat)
      requires Valid()
      requires Value() > 0 && shift > 0 ==> HighestWritten(count_, shift) < CAPACITY
      modifies this, digits_
      ensures Valid() && Value() == old(Value()) * Pow(2, shift)
      ensures old(Value()) == 0 || shift == 0 ==> digits_[..] == old(digits_[..])
      ensures old(Value()) > 0 && shift > 0 ==>
                forall j | HighestWritten(old(count_), shift) < j < CAPACITY :: digits_[j] == old(digits_[j])
    {
      hide Pow, P, Val;
      var zero := IsZero();
      PowZero();
      if zero || shift == 0 { return; }
      var offset, interShift := shift / TYPE_BIT, shift % TYPE_BIT;
      Complement(interShift, offset);
      Regroup(Value(), Pow(2, interShift), P(offset));
      if interShift == 0 {
        ShiftWords(offset);
      } else {
        ShiftInside(offset, Pow(2, interShift), Pow(2, TYPE_BIT - interShift));
      }
    }

    static lemma Regroup(v: nat, f: nat, p: nat)
      ensures v * f * p == v * (p * f)
    {
    }

    static lemma NonZeroTop(s: seq<Limb>)
      requires Normal(s) && Val(s) > 0
      ensures s[|s| - 1] != 0
    {
      if |s| == 1 { OneLimb(s); }
    }

    static lemma WholeWords(s: seq<Limb>, r: seq<Limb>, offset: nat)
      requires Moved(s, r, offset) && s != []
      ensures |r| == offset + |s|
      ensures Val(r) == Val(s) * P(offset) && r[|r| - 1] == s[|s| - 1]
    {
      hide Val, P;
      assert r == r[..offset] + s;
      OverZeros(r, r[..offset], s);
    }

    /** The powers of a shift: inside a word, the rest of the word, and all of it. */
    static lemma Complement(inner: nat, offset: nat)
      requires inner < TYPE_BIT
      ensures Pow(2, inner) > 0 && Pow(2, TYPE_BIT - inner) > 0
      ensures Pow(2, inner) * Pow(2, TYPE_BIT - inner) == B
      ensures Pow(2, TYPE_BIT * offset + inner) == P(offset) * Pow(2, inner)
    {
      hide Pow, P;
      PowAdds(2, inner, TYPE_BIT - inner);
      WordPow();
      PowAdds(2, TYPE_BIT * offset, inner);
      WeightIsPow(offset);
    }

    // ----- powers of five and decimal digits -----

    /** `MultiplyPow5`: by 5^27 in 64 bits, by 5^13 in 32 bits, then by a table entry. */
    method MultiplyPow5(exp: nat)
      requires Valid() && Value() * Pow(5, exp) < P(CAPACITY)
      modifies this, digits_
      ensures Valid() && Value() == old(Value()) * Pow(5, exp)
    {
      PowersOfFive();
      hide Pow, P, Val;
      ghost var v := Value();
      var e := exp;
      while e >= 27
        invariant 0 <= e <= exp && Valid() && Value() * Pow(5, e) == v * Pow(5, exp)
      {
        Peel(Value(), e, 27, v * Pow(5, exp));
        Multiply64(0x6765_C793_FA10_079D);
        e := e - 27;
      }
      while e >= 13
        invariant 0 <= e < 27 && Valid() && Value() * Pow(5, e) == v * Pow(5, exp)
      {
        Peel(Value(), e, 13, v * Pow(5, exp));
        Multiply32(1220703125);
        e := e - 13;
      }
      if e > 0 { Multiply32(POW_5[e - 1]); }
    }

    /** One factor of a power moves over. */
    static lemma Peel(x: nat, e: nat, d: nat, total: nat)
      requires d <= e && x * Pow(5, e) == total < P(CAPACITY)
      ensures x * Pow(5, d) < P(CAPACITY) && (x * Pow(5, d)) * Pow(5, e - d) == total
    {
      hide Pow, P;
      PowAdds(5, d, e - d);
      var y, z := Pow(5, d), Pow(5, e - d);
      assert (x * y) * z == x * (y * z);
      PowPositive(5, e - d);
      Times(1, z, x * y);
    }

    /** `ParseUint64`: at most 19 digits, which a word holds. */
    static method ParseUint64(decimals: Bytes, begin: nat, end: nat) returns (r: Limb)
      requires AllDigits(decimals, begin, end) && end - begin <= 19
      ensures r == DigitsValue(decimals, begin, end)
    {
      r := 0;
      var p := begin;
      while p != end
        invariant begin <= p <= end && r == DigitsValue(decimals, begin, p)
      {
        NextDigit(decimals, begin, p);
        ValueBelowPower(decimals, begin, p + 1);
        PowerGrows(p + 1 - begin, 19);
        TenPower19();
        r := r * 10 + (decimals[p] - '0' as int);
        p := p + 1;
      }
    }

    static lemma SmallShiftFits(count: nat, shift: nat)
      requires 0 < count <= 415 && shift < TYPE_BIT
      ensures HighestWritten(count, shift) < CAPACITY
    {
    }

    /** `*this * 10^exp + u`: powers of five, a shift, and the digits. */
    method TimesTenPlus(exp: nat, u: Limb)
      requires Valid() && 0 < exp <= 19 && Value() * Pow(10, exp) + u < P(415)
      modifies this, digits_
      ensures Valid() && Value() == old(Value()) * Pow(10, exp) + u
    {
      Room(Value(), exp, u);
      hide P, Val, Pow, HighestWritten;
      MultiplyPow5(exp);
      FewLimbs(digits_[..count_], 415);
      SmallShiftFits(count_, exp);
      ShiftLeft(exp);
      Add(u);
    }

    /** `AppendDecimal64`: the number so far with at most 19 more digits. */
    method AppendDecimal64(decimals: Bytes, begin: nat, end: nat)
      requires Valid() && AllDigits(decimals, 0, end) && begin < end <= begin + 19 && end <= 7968
      requires Value() == DigitsValue(decimals, 0, begin)
      modifies this, digits_
      ensures Valid() && Value() == DigitsValue(decimals, 0, end) && count_ <= 415
    {
      hide P, Val, Pow, DigitsValue;
      var u := ParseUint64(decimals, begin, end);
      var zero := IsZero();
      ValueSplits(decimals, 0, begin, end);
      BelowWord415(decimals, end);
      ghost var ten := Pow(10, end - begin);
      assert zero ==> Value() * ten == 0;
      if zero { Assign(u); } else { TimesTenPlus(end - begin, u); }
      FewLimbs(digits_[..count_], 415);
    }

    /** Decimal digits, 19 at a time. Up to 7968 digits never need the last of the 416
        words, which is the one an inner shift writes ahead of its result. */
    constructor FromDecimals(decimals: Bytes)
      requires 1 <= |decimals| <= 7968 && AllDigits(decimals, 0, |decimals|)
      ensures Valid() && fresh(digits_) && Value() == DecValue(decimals) && count_ <= 415
    {
      digits_ := new Limb[CAPACITY](i => 0);
      count_ := 1;
      new;
      OneLimb(digits_[..1]);
      var length, i := |decimals|, 0;
      while length >= 19
        invariant 0 <= i && 0 <= length && i + length == |decimals| && fresh(digits_)
        invariant Valid() && Value() == DigitsValue(decimals, 0, i) && count_ <= 415
      {
        AppendDecimal64(decimals, i, i + 19);
        length := length - 19;
        i := i + 19;
      }
      if length > 0 { AppendDecimal64(decimals, i, i + length); }
      assert decimals[0..|decimals|] == decimals;
    }

    static lemma BelowWord415(decimals: Bytes, end: nat)
      requires AllDigits(decimals, 0, end) && end <= 7968
      ensures DigitsValue(decimals, 0, end) < P(415)
    {
      hide DigitsValue, Pow, P;
      ValueBelowPower(decimals, 0, end);
      PowerGrows(end, 7968);
      DecimalBound();
    }

    /** The values on the way to `v * 10^exp + u` stay below the weight of word 415. */
    static lemma Room(v: nat, exp: nat, u: nat)
      requires v * Pow(10, exp) + u < P(415)
      ensures v * Pow(5, exp) < P(415) < P(CAPACITY)
      ensures v * Pow(5, exp) * Pow(2, exp) == v * Pow(10, exp)
    {
      hide Pow, P;
      DecimalBound();
      TenIsTwoFives(exp);
      PowPositive(2, exp);
      Shrinks(v, Pow(5, exp), Pow(2, exp));
    }

    static lemma Shrinks(v: nat, f: nat, t: nat)
      requires t >= 1
      ensures v * f * t == v * (f * t) && v * f <= v * f * t
    {
      Times(1, t, v * f);
    }

    // ----- comparison and difference -----

    /** `Compare` is the numeric order. */
    method Compare(rhs: BigInteger) returns (r: int)
      requires Valid() && rhs.Valid()
      ensures r == if Value() < rhs.Value() then -1 else if Value() > rhs.Value() then 1 else 0
    {
      ghost var a, b := digits_[..count_], rhs.digits_[..rhs.count_];
      if count_ != rhs.count_ {
        LongerIsGreater(a, b);
        return if count_ < rhs.count_ then -1 else 1;
      }
      hide Val, P;
      var i := count_;
      while i > 0
        invariant 0 <= i <= |a| == |b| && a[i..] == b[i..]
      {
        i := i - 1;
        if digits_[i] != rhs.digits_[i] {
          CommonTop(a, b, i + 1);
          if digits_[i] < rhs.digits_[i] {
            TopDecides(a[..i + 1], b[..i + 1]);
            return -1;
          } else {
            TopDecides(b[..i + 1], a[..i + 1]);
            return 1;
          }
        }
        assert a[i..] == [a[i]] + a[i + 1..] && b[i..] == [b[i]] + b[i + 1..];
      }
      assert a == a[0..] && b == b[0..];
      r := 0;
    }

    static lemma LongerIsGreater(a: seq<Limb>, b: seq<Limb>)
      requires Normal(a) && Normal(b) && |a| != |b|
      ensures |a| < |b| ==> Val(a) < Val(b)
      ensures |a| > |b| ==> Val(a) > Val(b)
    {
      hide Val, P;
      ValBound(a);
      ValBound(b);
      if |a| < |b| { ValLower(b); WeightGrows(|a|, |b| - 1); } else { ValLower(a); WeightGrows(|b|, |a| - 1); }
    }

    /** The loop of `Difference`, on the result: the words of `a - b`, without the zero
        words on top. */
    method SubtractWords(a: BigInteger, b: BigInteger) returns (ghost top: nat)
      requires Valid() && a.Valid() && b.Valid()
      requires a != this && b != this && digits_ != a.digits_ && digits_ != b.digits_
      modifies this, digits_
      ensures digits_[..a.count_] == Words(a.digits_[..a.count_], b.digits_[..b.count_], a.count_)
      ensures top <= a.count_ && forall j | top <= j < a.count_ :: digits_[j] == 0
      ensures top > 0 ==> digits_[top - 1] != 0 && count_ == top
    {
      ghost var s, t := a.digits_[..a.count_], b.digits_[..b.count_];
      var borrow: Limb, i := 0, 0;
      top := 0;
      hide Val, P, Wrap;
      while i < a.count_
        invariant 0 <= i <= |s| == a.count_ && top <= i
        invariant borrow == Borrow(s, t, i) && digits_[..i] == Words(s, t, i)
        invariant forall j | top <= j < i :: digits_[j] == 0
        invariant top > 0 ==> digits_[top - 1] != 0 && count_ == top
      {
        var d := Wrap(a.digits_[i] as int - borrow as int);
        d := Wrap(d as int - (if i < b.count_ then b.digits_[i] else 0) as int);
        assert d == Word(s, t, i);
        borrow := if d > a.digits_[i] then 1 else 0;
        digits_[i] := d;
        if d != 0 {
          count_ := i + 1;
          top := i + 1;
        }
        i := i + 1;
      }
    }

    /** A larger number less a smaller one, exactly when no borrow is lost. */
    method SubtractFrom(a: BigInteger, b: BigInteger)
      requires Valid() && a.Valid() && b.Valid() && a.Value() > b.Value()
      requires a != this && b != this && digits_ != a.digits_ && digits_ != b.digits_
      modifies this, digits_
      ensures Valid()
      ensures Value() == a.Value() - b.Value() <==>
              forall i | 0 <= i < a.count_ :: !LosesBorrow(a.digits_[..a.count_], b.digits_[..b.count_], i)
    {
      ghost var s, t := a.digits_[..a.count_], b.digits_[..b.count_];
      hide Val, P, Words, LosesBorrow;
      if |t| > |s| { LongerIsGreater(s, t); }
      ghost var top := SubtractWords(a, b);
      DifferenceExactly(s, t);
      Trimmed(Words(s, t, |s|), top);
      assert digits_[..top] == Words(s, t, |s|)[..top];
    }

    /** `Difference`: whether the receiver is the smaller. The result is the absolute
        difference exactly when no borrow is lost. */
    method Difference(rhs: BigInteger, out: BigInteger) returns (smaller: bool)
      requires Valid() && rhs.Valid() && out.Valid() && Value() != rhs.Value()
      requires out != this && out != rhs && out.digits_ != digits_ && out.digits_ != rhs.digits_
      modifies out, out.digits_
      ensures smaller <==> Value() < rhs.Value()
      ensures out.Valid()
      ensures var a, b := if smaller then rhs else this, if smaller then this else rhs;
        out.Value() == a.Value() - b.Value() <==>
        forall i | 0 <= i < a.count_ :: !LosesBorrow(a.digits_[..a.count_], b.digits_[..b.count_], i)
    {
      var cmp := Compare(rhs);
      smaller := cmp < 0;
      hide Val, LosesBorrow, Normal;
      if smaller { out.SubtractFrom(rhs, this); } else { out.SubtractFrom(this, rhs); }
    }

    /** Zero words on top add nothing. */
    static lemma Trimmed(r: seq<Limb>, top: nat)
      requires top <= |r| && Val(r) > 0 && forall j | top <= j < |r| :: r[j] == 0
      ensures top > 0 && Val(r[..top]) == Val(r)
    {
      var low, high := r[..top], r[top..];
      ValZeros(high);
      assert r == low + high;
      ValAppend(low, high);
    }
  }
}
