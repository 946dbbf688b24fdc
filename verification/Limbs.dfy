/** Numbers as little-endian sequences of 64-bit limbs.

    The number a sequence denotes, its bounds, and how it depends on the top limbs,
    on appended limbs and on equal parts. */
module Limbs {
  import opened Common

  const B: nat := 0x1_0000_0000_0000_0000

  type Limb = x: int | 0 <= x < 0x1_0000_0000_0000_0000

  /** The weight of limb `i`. */
  function P(i: nat): (p: nat)
    ensures p > 0
  {
    if i == 0 then 1 else B * P(i - 1)
  }

  /** The number a sequence of limbs denotes. */
  function Val(s: seq<Limb>): nat {
    if s == [] then 0 else
      var n := |s| - 1;
      Val(s[..n]) + s[n] * P(n)
  }

  /** No superfluous leading limb. */
  predicate Normal(s: seq<Limb>) {
    |s| == 1 || (|s| > 1 && s[|s| - 1] != 0)
  }

  lemma ValSnoc(s: seq<Limb>, x: Limb)
    ensures Val(s + [x]) == Val(s) + x * P(|s|)
  {
    assert (s + [x])[..|s|] == s;
  }

  lemma ValStep(s: seq<Limb>, i: nat)
    requires i < |s|
    ensures Val(s[..i + 1]) == Val(s[..i]) + s[i] * P(i)
  {
    assert s[..i + 1][..i] == s[..i];
  }

  lemma Times(a: nat, b: nat, c: nat)
    ensures a <= b ==> a * c <= b * c
    ensures a + 1 <= b ==> a * c + c <= b * c
  {
    if a <= b { SplitFactor(a, b - a, c); }
    if a + 1 <= b { SplitFactor(1, b - a - 1, c); }
  }

  lemma SplitFactor(x: nat, y: nat, c: nat)
    ensures (x + y) * c == x * c + y * c && y * c >= 0
  {
  }

  lemma Distribute(x: int, y: int, z: int, w: int)
    ensures x * (y + z * w) == x * y + z * (x * w)
  {
  }

  lemma {:induction false} ValBound(s: seq<Limb>)
    ensures Val(s) < P(|s|)
  {
    if s != [] {
      var n := |s| - 1;
      ValBound(s[..n]);
      Times(s[n], B, P(n));
    }
  }

  lemma ValLower(s: seq<Limb>)
    requires s != [] && s[|s| - 1] != 0
    ensures Val(s) >= P(|s| - 1)
  {
    Times(1, s[|s| - 1], P(|s| - 1));
  }

  lemma {:induction false} WeightGrows(i: nat, j: nat)
    requires i <= j
    ensures P(i) <= P(j)
  {
    if i < j { WeightGrows(i, j - 1); }
  }

  lemma {:induction false} WeightAdds(i: nat, j: nat)
    ensures P(i + j) == P(i) * P(j)
    decreases j
  {
    if j > 0 {
      WeightAdds(i, j - 1);
      assert P(i) * (B * P(j - 1)) == B * (P(i) * P(j - 1));
    }
  }

  /** The value below `P(n)` of a normal sequence leaves it no more than `n` limbs. */
  lemma FewLimbs(s: seq<Limb>, n: nat)
    requires Normal(s) && n >= 1 && Val(s) < P(n)
    ensures |s| <= n
  {
    if |s| > n {
      ValLower(s);
      WeightGrows(n, |s| - 1);
    }
  }

  /** The order of two numbers is that of their top limbs, when those differ. */
  lemma TopDecides(a: seq<Limb>, b: seq<Limb>)
    requires |a| == |b| != 0 && a[|a| - 1] < b[|a| - 1]
    ensures Val(a) < Val(b)
  {
    var n := |a| - 1;
    ValBound(a[..n]);
    Times(a[n], b[n], P(n));
  }

  /** Leading limbs in common do not matter for the order. */
  lemma {:induction false} CommonTop(a: seq<Limb>, b: seq<Limb>, n: nat)
    requires n <= |a| == |b| && a[n..] == b[n..]
    ensures Val(a) - Val(b) == Val(a[..n]) - Val(b[..n])
    decreases |a|
  {
    if n < |a| {
      var m := |a| - 1;
      assert a[m] == a[n..][m - n] == b[n..][m - n] == b[m];
      assert a[..m][n..] == a[n..][..m - n] && b[..m][n..] == b[n..][..m - n];
      CommonTop(a[..m], b[..m], n);
      assert a[..m][..n] == a[..n] && b[..m][..n] == b[..n];
    } else {
      assert a[..n] == a && b[..n] == b;
    }
  }

  lemma {:induction false} ValZeros(s: seq<Limb>)
    requires forall i | 0 <= i < |s| :: s[i] == 0
    ensures Val(s) == 0
  {
    if s != [] { ValZeros(s[..|s| - 1]); }
  }

  /** Low limbs, then high ones. */
  lemma {:induction false} ValAppend(a: seq<Limb>, b: seq<Limb>)
    ensures Val(a + b) == Val(a) + P(|a|) * Val(b)
  {
    if b == [] {
      assert a + b == a;
    } else {
      var n := |b| - 1;
      ValAppend(a, b[..n]);
      assert a + b == (a + b[..n]) + [b[n]];
      ValSnoc(a + b[..n], b[n]);
      WeightAdds(|a|, n);
      Distribute(P(|a|), Val(b[..n]), b[n], P(n));
    }
  }

  /** Two normal sequences denote the same number only if they are equal. */
  lemma {:induction false} ValInjective(a: seq<Limb>, b: seq<Limb>)
    requires |a| == |b| && Val(a) == Val(b)
    ensures a == b
  {
    if a != [] {
      var n := |a| - 1;
      if a[n] < b[n] { TopDecides(a, b); }
      else if b[n] < a[n] { TopDecides(b, a); }
      else {
        ValInjective(a[..n], b[..n]);
        assert a == a[..n] + [a[n]] && b == b[..n] + [b[n]];
      }
    }
  }
}
