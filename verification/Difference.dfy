/** What the subtraction loop of `BigInteger::Difference` computes, word by word, and
    exactly when that is the difference. */
module Difference {
  import opened Common
  import opened Limbs
  import opened WordArithmetic

  /** Word `i` of the subtrahend. */
  function Taken(b: seq<Limb>, i: nat): Limb {
    if i < |b| then b[i] else 0
  }

  /** The borrow the loop holds before word `i`. */
  function Borrow(a: seq<Limb>, b: seq<Limb>, i: nat): (r: Limb)
    requires i <= |a|
    ensures r <= 1
    decreases i, 0
  {
    if i == 0 then 0 else if Word(a, b, i - 1) > a[i - 1] then 1 else 0
  }

  /** Word `i` of the result, reduced as the subtractions reduce it. */
  function Word(a: seq<Limb>, b: seq<Limb>, i: nat): Limb
    requires i < |a|
    decreases i, 1
  {
    Wrap(Wrap(a[i] as int - Borrow(a, b, i) as int) as int - Taken(b, i) as int)
  }

  function Words(a: seq<Limb>, b: seq<Limb>, n: nat): (r: seq<Limb>)
    requires n <= |a|
    ensures |r| == n
  {
    if n == 0 then [] else Words(a, b, n - 1) + [Word(a, b, n - 1)]
  }

  /** What the lost borrows below word `n` amount to. */
  function Lost(a: seq<Limb>, b: seq<Limb>, n: nat): nat
    requires n <= |a|
  {
    if n == 0 then 0
    else Lost(a, b, n - 1) + if Taken(b, n - 1) + Borrow(a, b, n - 1) == B then P(n) else 0
  }

  /** The subtrahend below word `n`. */
  function Below(b: seq<Limb>, n: nat): nat {
    if n <= |b| then Val(b[..n]) else Val(b)
  }

  lemma BelowStep(b: seq<Limb>, n: nat)
    ensures Below(b, n + 1) == Below(b, n) + Taken(b, n) * P(n)
  {
    if n < |b| { ValStep(b, n); } else { assert b[..|b|] == b; }
  }

  /** One word: a borrow goes missing exactly when a whole word is taken away. */
  lemma OneWord(x: Limb, borrow: nat, y: Limb)
    requires borrow <= 1
    ensures var w: Limb := Wrap(Wrap(x as int - borrow) as int - y as int);
      w + y + borrow == x + (if w > x then B else 0) + (if y + borrow == B then B else 0)
  {
    if x >= borrow { assert Wrap(x as int - borrow) == x - borrow; } else { assert Wrap(x as int - borrow) == x - borrow + B; }
    var v := Wrap(x as int - borrow);
    if v >= y { assert Wrap(v as int - y as int) == v - y; } else { assert Wrap(v as int - y as int) == v - y + B; }
  }

  lemma WordScaled(w: nat, y: nat, borrow: nat, x: nat, more: nat, lost: nat, p: nat)
    requires w + y + borrow == x + more * B + lost * B
    ensures w * p + y * p + borrow * p == x * p + more * (B * p) + lost * (B * p)
  {
    assert (w + y + borrow) * p == w * p + y * p + borrow * p;
    assert (x + more * B + lost * B) * p == x * p + more * (B * p) + lost * (B * p);
  }

  /** The account of the loop: nothing is wrong but the lost borrows. */
  lemma {:induction false} Account(a: seq<Limb>, b: seq<Limb>, n: nat)
    requires n <= |a|
    ensures Val(Words(a, b, n)) + Below(b, n) == Val(a[..n]) + Borrow(a, b, n) * P(n) + Lost(a, b, n)
  {
    if n > 0 {
      var i := n - 1;
      Account(a, b, i);
      ValSnoc(Words(a, b, i), Word(a, b, i));
      ValStep(a, i);
      BelowStep(b, i);
      OneWord(a[i], Borrow(a, b, i), Taken(b, i));
      var lost := if Taken(b, i) + Borrow(a, b, i) == B then 1 else 0;
      WordScaled(Word(a, b, i), Taken(b, i), Borrow(a, b, i), a[i], Borrow(a, b, n), lost, P(i));
    }
  }

  /** The borrow test of the loop misses a borrow at word `i`: the word taken away is all
      ones and a borrow comes in from below. */
  ghost predicate LosesBorrow(a: seq<Limb>, b: seq<Limb>, i: nat) {
    i < |a| && i < |b| && b[i] == B - 1 && Val(a[..i]) < Val(b[..i])
  }

  /** As long as none is lost, the borrow says that the low words are too small. */
  lemma BorrowMeans(a: seq<Limb>, b: seq<Limb>, i: nat)
    requires i <= |a| && i <= |b| && Lost(a, b, i) == 0
    ensures Borrow(a, b, i) == 1 <==> Val(a[..i]) < Val(b[..i])
  {
    Account(a, b, i);
    hide *;
    assert Below(b, i) == Val(b[..i]) by { BelowIs(b, i); }
    ValBound(Words(a, b, i));
    Balance(Val(Words(a, b, i)), Val(b[..i]), Val(a[..i]), Borrow(a, b, i), P(i), 0);
  }

  lemma BelowIs(b: seq<Limb>, i: nat)
    ensures i <= |b| ==> Below(b, i) == Val(b[..i])
    ensures i >= |b| ==> Below(b, i) == Val(b)
  {
    assert b[..|b|] == b;
  }

  /** What the account says of the last borrow. */
  lemma Balance(w: nat, b: nat, a: nat, borrow: nat, p: nat, lost: nat)
    requires w + b == a + borrow * p + lost && w < p && borrow <= 1
    ensures lost == 0 ==> (borrow == 1 <==> a < b)
    ensures b < a ==> w >= a - b && (w == a - b <==> lost == 0)
  {
    if borrow == 0 { assert borrow * p == 0; } else { assert borrow * p == p; }
  }

  lemma {:induction false} LostExactly(a: seq<Limb>, b: seq<Limb>, n: nat)
    requires n <= |a|
    ensures Lost(a, b, n) > 0 <==> exists i | 0 <= i < n :: LosesBorrow(a, b, i)
  {
    if n > 0 {
      LostExactly(a, b, n - 1);
      if Lost(a, b, n - 1) == 0 {
        if n - 1 < |b| { BorrowMeans(a, b, n - 1); }
        assert Lost(a, b, n) > 0 <==> LosesBorrow(a, b, n - 1);
      }
    }
  }

  /** The loop yields the difference of a larger and a smaller number exactly when no
      borrow is lost; otherwise it yields more. */
  lemma DifferenceExactly(a: seq<Limb>, b: seq<Limb>)
    requires |b| <= |a| && Val(b) < Val(a)
    ensures Val(Words(a, b, |a|)) >= Val(a) - Val(b)
    ensures Val(Words(a, b, |a|)) == Val(a) - Val(b) <==> forall i | 0 <= i < |a| :: !LosesBorrow(a, b, i)
  {
    var n := |a|;
    hide *;
    assert a[..n] == a;
    Account(a, b, n);
    LostExactly(a, b, n);
    ValBound(Words(a, b, n));
    BelowIs(b, n);
    Balance(Val(Words(a, b, n)), Val(b), Val(a), Borrow(a, b, n), P(n), Lost(a, b, n));
  }

  /** An example of a lost borrow: 2^128 - (2^128 - 1), a difference of one, comes out as
      2^128 + 1. */
  lemma BorrowIsLost()
    ensures var a: seq<Limb>, b: seq<Limb> := [0, 0, 1], [B - 1, B - 1];
      Val(a) - Val(b) == 1 && Val(Words(a, b, 3)) == B * B + 1
  {
    var a: seq<Limb>, b: seq<Limb> := [0, 0, 1], [B - 1, B - 1];
    assert a[..0] == [] && b[..0] == [] && P(1) == B && P(2) == B * B;
    assert a[..1] == [0] && a[..2] == [0, 0] && b[..1] == [B - 1];
    assert Val(a[..1]) == 0 && Val(a[..2]) == 0 && Val(a) == B * B;
    assert Val(b[..1]) == B - 1;
    assert Word(a, b, 0) == 1;
    assert Word(a, b, 1) == 0;
    assert Word(a, b, 2) == 1;
    assert Words(a, b, 0) == [];
    assert Words(a, b, 1) == [1];
    assert Words(a, b, 2) == [1, 0];
    var w := Words(a, b, 3);
    assert w == [1, 0, 1] && w[..2] == [1, 0] && w[..1] == [1];
    assert Val(w[..1]) == 1 && Val(w[..2]) == 1;
  }
}
