/** 64-bit operations, written out: every result is reduced as the hardware reduces it.

    Carries of additions, the product of two words from four half-word products, and
    limb weights as powers of two. */
module WordArithmetic {
  import opened Common
  import opened Limbs

  const H: nat := 0x1_0000_0000

  function Wrap(x: int): Limb {
    x % 0x1_0000_0000_0000_0000
  }

  /** `a + b` on 64-bit words. */
  function Plus(a: Limb, b: Limb): Limb {
    Wrap(a as int + b as int)
  }

  function High(x: Limb): (r: Limb)
    ensures r < H
  {
    x / 0x1_0000_0000
  }

  function Low(x: Limb): (r: Limb)
    ensures r < H && x == High(x) * H + r
  {
    x % 0x1_0000_0000
  }

  /** `x << s`. */
  function ShiftedLeft(x: Limb, factor: nat): Limb {
    Wrap(x * factor)
  }

  /** A carry out of an addition shows in the sum being smaller than an operand. */
  lemma CarryShows(a: Limb, b: Limb)
    ensures Plus(a, b) == Plus(b, a) && (Plus(a, b) < b <==> a + b >= B)
    ensures a + b == Plus(a, b) + (if Plus(a, b) < b then B else 0)
  {
    if a + b >= B { assert Plus(a, b) == a + b - B; } else { assert Plus(a, b) == a + b; }
  }

  lemma ProductBound(x: nat, y: nat, m: nat)
    requires x < m && y < m
    ensures x * y <= (m - 1) * (m - 1) && x * y >= 0
  {
    Times(x, m - 1, y);
    Times(y, m - 1, m - 1);
  }

  lemma ShiftHalf(x: Limb)
    ensures ShiftedLeft(x, H) == Low(x) * H
  {
    assert x * H == High(x) * B + Low(x) * H;
    assert (High(x) * B + Low(x) * H) % B == (Low(x) * H) % B by { ModPlus(High(x), Low(x) * H); }
  }

  lemma ModPlus(q: nat, r: nat)
    requires r < B
    ensures (q * B + r) % B == r && (q * B + r) / B == q
  {
  }

  /** A product from its four half-word products. */
  lemma FourProducts(a1: nat, a0: nat, b1: nat, b0: nat)
    ensures (a1 * H + a0) * (b1 * H + b0) == a1 * b1 * B + (a0 * b1 + a1 * b0) * H + a0 * b0
  {
    calc {
      (a1 * H + a0) * (b1 * H + b0);
      a1 * H * (b1 * H + b0) + a0 * (b1 * H + b0);
      (a1 * (b1 * H + b0)) * H + a0 * (b1 * H) + a0 * b0;
      (a1 * (b1 * H) + a1 * b0) * H + (a0 * b1) * H + a0 * b0;
      ((a1 * b1) * H + a1 * b0) * H + (a0 * b1) * H + a0 * b0;
      a1 * b1 * B + (a0 * b1 + a1 * b0) * H + a0 * b0;
    }
  }

  lemma NoWrap(x: int)
    requires 0 <= x < B
    ensures Wrap(x) == x
  {
  }

  /** The pieces of a product add up: linear in the four half-word products. */
  lemma PiecesAdd(p00: nat, p01: nat, p10: nat, p11: nat, x0h: nat, x0l: nat, x1h: nat, x1l: nat, c: nat)
    requires p00 == x0h * H + x0l && p01 + x0h + p10 == x1h * H + x1l + c * B
    ensures p11 * B + (p01 + p10) * H + p00 == (p11 + c * H + x1h) * B + x1l * H + x0l
  {
  }

  /** Four half-word products added with their carries. */
  method Combine(p0: Limb, p1: Limb, p2: Limb, p3: Limb) returns (lo: Limb, hi: Limb)
    requires p0 <= (H - 1) * (H - 1) && p1 <= (H - 1) * (H - 1) && p2 <= (H - 1) * (H - 1) && p3 <= (H - 1) * (H - 1)
    requires p3 * B + (p1 + p2) * H + p0 < B * B
    ensures p3 * B + (p1 + p2) * H + p0 == hi * B + lo
  {
    var x1, x3 := p1, p3;
    hide Wrap, High, Low, ShiftedLeft;
    NoWrap(x1 + High(p0));
    x1 := Wrap(x1 + High(p0)); // can't give carry
    CarryShows(x1, p2);
    x1 := Plus(x1, p2);
    ghost var c := if x1 < p2 then 1 else 0;
    PiecesAdd(p0, p1, p2, p3, High(p0), Low(p0), High(x1), Low(x1), c);
    if x1 < p2 {
      NoWrap(x3 + H);
      x3 := Wrap(x3 + H);
    }
    ShiftHalf(x1);
    NoWrap(ShiftedLeft(x1, H) + Low(p0));
    lo := Wrap(ShiftedLeft(x1, H) + Low(p0));
    NoWrap(x3 + High(x1));
    hi := Wrap(x3 + High(x1));
  }

  /** The portable 64 by 64 bit multiplication: low and high words. */
  method Mul64(a: Limb, b: Limb) returns (lo: Limb, hi: Limb)
    ensures a * b == hi * B + lo
  {
    var a0, a1, b0, b1 := Low(a), High(a), Low(b), High(b);
    hide Wrap, High, Low;
    ProductBound(a0, b0, H);
    ProductBound(a0, b1, H);
    ProductBound(a1, b0, H);
    ProductBound(a1, b1, H);
    FourProducts(a1, a0, b1, b0);
    ProductBound(a, b, B);
    lo, hi := Combine(a0 * b0, a0 * b1, a1 * b0, a1 * b1);
  }

  /** `MulAdd64`: `a * b + k` in 128 bits. */
  method MulAdd64(a: Limb, b: Limb, k: Limb) returns (lo: Limb, hi: Limb)
    ensures a * b + k == hi * B + lo
  {
    lo, hi := Mul64(a, b);
    CarryShows(lo, k);
    lo := Plus(lo, k);
    if lo < k {
      HighFits(a, b, k, hi + 1, lo);
      NoWrap(hi + 1);
      hi := Wrap(hi + 1);
    }
  }

  lemma HighFits(a: Limb, b: Limb, k: Limb, hi: nat, lo: nat)
    requires a * b + k == hi * B + lo
    ensures hi < B
  {
    ProductBound(a, b, B);
    if hi >= B { Times(B, hi, B); }
  }

  // ----- powers -----

  lemma {:induction false} PowAdds(b: nat, m: nat, n: nat)
    ensures Pow(b, m + n) == Pow(b, m) * Pow(b, n)
    decreases m
  {
    if m > 0 {
      PowAdds(b, m - 1, n);
      assert b * (Pow(b, m - 1) * Pow(b, n)) == (b * Pow(b, m - 1)) * Pow(b, n);
    }
  }

  lemma Pow2To8()
    ensures Pow(2, 8) == 256
  {
  }

  lemma WordPow()
    ensures Pow(2, 64) == B
  {
    Pow2To8();
    hide Pow;
    PowAdds(2, 8, 8);
    PowAdds(2, 16, 16);
    PowAdds(2, 32, 32);
  }

  /** Limb weights are powers of two. */
  lemma {:induction false} WeightIsPow(n: nat)
    ensures P(n) == Pow(2, 64 * n)
  {
    hide Pow;
    if n == 0 {
      PowZero();
    } else {
      WeightIsPow(n - 1);
      PowAdds(2, 64, 64 * (n - 1));
      WordPow();
    }
  }

  lemma PowZero()
    ensures Pow(2, 0) == 1
  {
  }
}
