/** What the hash of schema.h tells apart, so that comparing hashes can refuse. */
module HashSeparates {
  import opened Common
  import opened Hasher
  import opened Json

  /** Hash words wrap around here. */
  const WRAP: nat := 0x1_0000_0000_0000_0000

  /** The prime of 64-bit FNV-1a is odd, so it has an inverse. */
  const PRIME: nat := 0x100000001b3
  const INVERSE: nat := 0xce965057aff6957b
  const FACTOR: nat := 0xce9650590f

  lemma InversePrime()
    ensures PRIME * INVERSE == FACTOR * WRAP + 1
  {
  }

  lemma TimesPrimeBack(x: nat)
    requires x < WRAP
    ensures x * PRIME % WRAP * INVERSE % WRAP == x
  {
    var q, r := x * PRIME / WRAP, x * PRIME % WRAP;
    InversePrime();
    assert x * PRIME == q * WRAP + r;
    calc {
      r * INVERSE;
      (x * PRIME - q * WRAP) * INVERSE;
      x * (PRIME * INVERSE) - q * WRAP * INVERSE;
      x * (FACTOR * WRAP + 1) - q * WRAP * INVERSE;
      (x * FACTOR - q * INVERSE) * WRAP + x;
    }
    RemainderIs(r * INVERSE, x * FACTOR - q * INVERSE, x);
  }

  lemma RemainderIs(n: nat, k: int, x: nat)
    requires x < WRAP && n == k * WRAP + x
    ensures n % WRAP == x
  {
  }

  lemma XorBack(a: Code, b: Code)
    ensures Xor(Xor(a, b), b) == a && Xor(b, Xor(b, a)) == a
  {
    XorAssoc(a, b, b);
    XorAssoc(b, b, a);
    XorSelf(b);
    XorZero(a);
    hide Xor;
  }

  lemma {:induction false} XorBound(a: Code, b: Code, n: nat)
    requires a < Pow(2, n) && b < Pow(2, n)
    ensures Xor(a, b) < Pow(2, n)
    decreases n
  {
    if n > 0 {
      XorBound(a / 2, b / 2, n - 1);
      XorUnfold(a, b);
      hide Xor;
    }
  }

  lemma Wraps()
    ensures Pow(2, 64) == WRAP
  {
    assert Pow(2, 8) == 0x100;
    assert Pow(2, 16) == 0x1_0000;
    assert Pow(2, 24) == 0x100_0000;
    assert Pow(2, 32) == 0x1_0000_0000;
    assert Pow(2, 40) == 0x100_0000_0000;
    assert Pow(2, 48) == 0x1_0000_0000_0000;
    assert Pow(2, 56) == 0x100_0000_0000_0000;
  }

  /** One step of the hash forgets nothing: in each argument it is injective. */
  lemma MixSeparates(a: Code, b: Code, c: Code, d: Code)
    requires a < WRAP && b < WRAP && c < WRAP && d < WRAP
    ensures a == c || b == d ==> (Mix(a, b) == Mix(c, d) <==> a == c && b == d)
  {
    Wraps();
    XorBound(a, b, 64);
    XorBound(c, d, 64);
    hide Xor;
    TimesPrimeBack(Xor(a, b));
    TimesPrimeBack(Xor(c, d));
    XorBack(a, b);
    XorBack(c, d);
    XorBack(b, a);
    XorBack(d, c);
    XorComm(a, b);
    XorComm(c, d);
  }

  lemma MixBound(h: Code, d: Code)
    ensures Mix(h, d) < WRAP
  {
    hide Xor;
  }

  // ----- buffers -----

  lemma {:induction false} BytesBound(h: Code, data: Bytes)
    requires h < WRAP
    ensures MixBytes(h, data) < WRAP
    decreases |data|
  {
    hide Mix;
    if data != [] {
      MixBound(h, data[0]);
      BytesBound(Mix(h, data[0]), data[1..]);
    }
  }

  lemma {:induction false} BytesSeparate(a: Code, b: Code, data: Bytes)
    requires a < WRAP && b < WRAP && a != b
    ensures MixBytes(a, data) != MixBytes(b, data)
    decreases |data|
  {
    hide Mix;
    if data != [] {
      MixBound(a, data[0]);
      MixBound(b, data[0]);
      MixSeparates(a, data[0], b, data[0]);
      BytesSeparate(Mix(a, data[0]), Mix(b, data[0]), data[1..]);
    }
  }

  lemma {:induction false} ByteSeparates(h: Code, data: Bytes, i: nat, c: Byte)
    requires h < WRAP && i < |data| && c != data[i]
    ensures MixBytes(h, data) != MixBytes(h, data[i := c])
    decreases |data|
  {
    hide Mix;
    var other := data[i := c];
    MixBound(h, data[0]);
    MixBound(h, other[0]);
    if i == 0 {
      assert other[1..] == data[1..];
      MixSeparates(h, data[0], h, c);
      BytesSeparate(Mix(h, data[0]), Mix(h, c), data[1..]);
    } else {
      assert other[1..] == data[1..][i - 1 := c];
      ByteSeparates(Mix(h, data[0]), data[1..], i - 1, c);
    }
  }

  function Shifted(a: nat, n: nat): nat {
    if n == 0 then a else 2 * Shifted(a, n - 1)
  }

  /** Exclusive or with a byte changes the lowest byte only. */
  lemma {:induction false} XorLow(a: Code, x: Code, b: Code, n: nat)
    requires x < Pow(2, n) && b < Pow(2, n)
    ensures Xor(Shifted(a, n) + x, b) == Shifted(a, n) + Xor(x, b)
    decreases n
  {
    if n == 0 {
      XorZero(a);
      XorZero(0);
      hide Xor;
    } else {
      hide Xor;
      XorLow(a, x / 2, b / 2, n - 1);
      XorOfEven(Shifted(a, n - 1), x, b);
    }
  }

  lemma XorOfEven(t: nat, x: Code, b: Code)
    requires Xor(t + x / 2, b / 2) == t + Xor(x / 2, b / 2)
    ensures Xor(2 * t + x, b) == 2 * t + Xor(x, b)
  {
    hide Xor;
    XorUnfold(2 * t + x, b);
    XorUnfold(x, b);
  }

  lemma MixByte(h: Code, x: Code, b: Code, y: Code)
    requires x < 256 && b < 256 && y == Xor(x, b)
    ensures Mix(h * 256 + x, b) == (h * 256 + y) * 0x100000001b3 % 0x1_0000_0000_0000_0000
  {
    assert Pow(2, 8) == 256;
    assert Shifted(h, 1) == h * 2;
    assert Shifted(h, 2) == h * 4;
    assert Shifted(h, 4) == h * 16;
    assert Shifted(h, 6) == h * 64;
    assert Shifted(h, 8) == h * 256;
    hide Xor, Shifted;
    XorLow(h, x, b, 8);
  }

  /** The vector that the authors of FNV-1a give for the letter a. */
  lemma LetterA()
    ensures MixBytes(0xcbf29ce484222325, ['a' as int]) == 0xaf63dc4c8601ec8c
  {
    hide Mix, Xor;
    XorOfA();
    MixByte(0xcbf29ce4842223, 0x25, 0x61, 0x44);
    OneByte(0xcbf29ce484222325, 'a' as int);
  }

  lemma OneByte(h: Code, b: Byte)
    ensures MixBytes(h, [b]) == Mix(h, b)
  {
    hide Mix;
    assert [b][1..] == [];
  }

  lemma XorOfA()
    ensures Xor(0x25, 0x61) == 0x44
  {
    hide Xor;
    XorUnfold(0x25, 0x61);
    XorUnfold(0x12, 0x30);
    XorUnfold(0x09, 0x18);
    XorUnfold(0x04, 0x0c);
    XorUnfold(0x02, 0x06);
    XorUnfold(0x01, 0x03);
    XorUnfold(0x00, 0x01);
    XorZero(0);
  }

  // ----- values -----

  lemma {:induction false} HashBound(j: Value)
    ensures HashOf(j) < WRAP
    decreases j
  {
    hide Mix, NumberImage, MixBytes;
    match j
    case Array(es) => if es != [] { MixBound(ElementsHash(j, |es| - 1), HashOf(es[|es| - 1])); } else { MixBound(0, ARRAY_TYPE); }
    case Object(ms) => ObjectBound(ms);
    case Null => TagBound(NULL_TYPE, []);
    case Bool(b) => TagBound(if b then TRUE_TYPE else FALSE_TYPE, []);
    case Number(n) => TagBound(NUMBER_TYPE, NumberImage(n));
    case Double(image) => TagBound(NUMBER_TYPE, image);
    case String(s) => TagBound(STRING_TYPE, s);
  }

  lemma TagBound(tag: Code, data: Bytes)
    ensures BufferHash(tag, data) < WRAP
  {
    MixBound(0xcbf29ce484222325, tag);
    BytesBound(Mix(0xcbf29ce484222325, tag), data);
    hide Mix, MixBytes;
  }

  lemma {:induction false} MembersBound(ms: seq<Member>)
    ensures MembersHash(ms) < WRAP
    decreases |ms|
  {
    hide Mix, Xor, HashOf, BufferHash;
    if ms != [] {
      MembersBound(ms[1..]);
      MixBound(Mix(0, BufferHash(STRING_TYPE, ms[0].name)), HashOf(ms[0].value));
      Wraps();
      XorBound(MemberHash(ms[0]), MembersHash(ms[1..]), 64);
    }
  }

  lemma ObjectBound(ms: seq<Member>)
    ensures Xor(Mix(0, OBJECT_TYPE), MembersHash(ms)) < WRAP
  {
    hide Xor, Mix, MembersHash;
    MembersBound(ms);
    MixBound(0, OBJECT_TYPE);
    Wraps();
    XorBound(Mix(0, OBJECT_TYPE), MembersHash(ms), 64);
  }

  /** Null, true and false have three hashes. */
  lemma WordsDiffer()
    ensures HashOf(Null) != HashOf(Bool(true)) && HashOf(Bool(true)) != HashOf(Bool(false)) && HashOf(Bool(false)) != HashOf(Null)
  {
    var h: Code := 0xcbf29ce484222325;
    assert NULL_TYPE < WRAP && TRUE_TYPE < WRAP && FALSE_TYPE < WRAP;
    MixSeparates(h, NULL_TYPE, h, TRUE_TYPE);
    MixSeparates(h, TRUE_TYPE, h, FALSE_TYPE);
    MixSeparates(h, FALSE_TYPE, h, NULL_TYPE);
    hide Mix;
  }

  lemma TagsDiffer(a: Code, b: Code, data: Bytes)
    requires a < WRAP && b < WRAP && a != b
    ensures BufferHash(a, data) != BufferHash(b, data)
  {
    var h: Code := 0xcbf29ce484222325;
    MixBound(h, a);
    MixBound(h, b);
    MixSeparates(h, a, h, b);
    BytesSeparate(Mix(h, a), Mix(h, b), data);
    hide Mix, MixBytes;
  }

  /** The empty values of the other kinds, and a number and its image as a string. */
  lemma KindsDiffer(n: Int64Or)
    ensures HashOf(String([])) !in {HashOf(Null), HashOf(Bool(true)), HashOf(Bool(false))}
    ensures HashOf(Array([])) != HashOf(Object([]))
    ensures HashOf(Number(n)) != HashOf(String(NumberImage(n)))
  {
    hide Mix, MixBytes, NumberImage, Xor;
    TagsDiffer(STRING_TYPE, NULL_TYPE, []);
    TagsDiffer(STRING_TYPE, TRUE_TYPE, []);
    TagsDiffer(STRING_TYPE, FALSE_TYPE, []);
    TagsDiffer(NUMBER_TYPE, STRING_TYPE, NumberImage(n));
    MixSeparates(0, ARRAY_TYPE, 0, OBJECT_TYPE);
    XorZero(Mix(0, OBJECT_TYPE));
    assert ElementsHash(Array([]), 0) == Mix(0, ARRAY_TYPE) && MembersHash([]) == 0;
  }

  /** So have two strings that differ in one byte. */
  lemma OneByteDiffers(s: Bytes, i: nat, c: Byte)
    requires i < |s| && c != s[i]
    ensures HashOf(String(s)) != HashOf(String(s[i := c]))
  {
    MixBound(0xcbf29ce484222325, STRING_TYPE);
    ByteSeparates(Mix(0xcbf29ce484222325, STRING_TYPE), s, i, c);
    hide Mix, MixBytes;
  }

  /** Another element with another hash changes the hash of an array. */
  lemma {:induction false} ElementsDiffer(a: Value, b: Value, i: nat, k: nat)
    requires a.Array? && b.Array? && i < k <= |a.es| && |a.es| == |b.es| && b.es == a.es[i := b.es[i]] && HashOf(a.es[i]) != HashOf(b.es[i])
    ensures ElementsHash(a, k) != ElementsHash(b, k)
    decreases k
  {
    hide Mix, HashOf;
    var x, y := a.es[k - 1], b.es[k - 1];
    HashBound(x);
    HashBound(y);
    ElementsBound(a, k - 1);
    ElementsBound(b, k - 1);
    MixSeparates(ElementsHash(a, k - 1), HashOf(x), ElementsHash(b, k - 1), HashOf(y));
    if k - 1 == i {
      SameElements(a, b, i);
    } else {
      ElementsDiffer(a, b, i, k - 1);
    }
  }

  lemma ElementsBound(a: Value, k: nat)
    requires a.Array? && k <= |a.es|
    ensures ElementsHash(a, k) < WRAP
  {
    hide Mix, HashOf;
    if k > 0 { MixBound(ElementsHash(a, k - 1), HashOf(a.es[k - 1])); } else { MixBound(0, ARRAY_TYPE); }
  }

  lemma {:induction false} SameElements(a: Value, b: Value, k: nat)
    requires a.Array? && b.Array? && k <= |a.es| && k <= |b.es| && forall i | 0 <= i < k :: a.es[i] == b.es[i]
    ensures ElementsHash(a, k) == ElementsHash(b, k)
    decreases k
  {
    hide Mix, HashOf;
    if k > 0 { SameElements(a, b, k - 1); }
  }

  lemma ArraysDiffer(es: seq<Value>, i: nat, v: Value)
    requires i < |es| && HashOf(v) != HashOf(es[i])
    ensures HashOf(Array(es)) != HashOf(Array(es[i := v]))
  {
    hide ElementsHash;
    var a, b := Array(es), Array(es[i := v]);
    assert HashOf(a) == ElementsHash(a, |es|) && HashOf(b) == ElementsHash(b, |es|);
    hide HashOf;
    assert b.es == a.es[i := b.es[i]];
    ElementsDiffer(a, b, i, |es|);
  }

  /** Another value of a member with another hash changes the hash of an object, and so does
      a name with another hash. */
  lemma ObjectsDiffer(ms: seq<Member>, i: nat, m: Member)
    requires i < |ms|
    requires (m.name == ms[i].name) != (m.value == ms[i].value)
    requires BufferHash(STRING_TYPE, m.name) != BufferHash(STRING_TYPE, ms[i].name) || HashOf(m.value) != HashOf(ms[i].value)
    ensures HashOf(Object(ms)) != HashOf(Object(ms[i := m]))
  {
    hide *;
    var other := ms[i := m];
    MembersDiffer(m, ms[i]);
    MembersHashPick(ms, i);
    MembersHashPick(other, i);
    assert other[..i] + other[i + 1..] == ms[..i] + ms[i + 1..];
    var rest := MembersHash(ms[..i] + ms[i + 1..]);
    XorBack(MemberHash(ms[i]), rest);
    XorBack(MemberHash(m), rest);
    ObjectHashIs(ms);
    ObjectHashIs(other);
    XorBack(MembersHash(ms), Mix(0, OBJECT_TYPE));
    XorBack(MembersHash(other), Mix(0, OBJECT_TYPE));
  }

  lemma ObjectHashIs(ms: seq<Member>)
    ensures HashOf(Object(ms)) == Xor(Mix(0, OBJECT_TYPE), MembersHash(ms))
  {
    hide Mix, Xor;
  }

  lemma MembersDiffer(m: Member, n: Member)
    requires (m.name == n.name) != (m.value == n.value)
    requires BufferHash(STRING_TYPE, m.name) != BufferHash(STRING_TYPE, n.name) || HashOf(m.value) != HashOf(n.value)
    ensures MemberHash(m) != MemberHash(n)
  {
    hide HashOf, BufferHash, Mix;
    var a, b := BufferHash(STRING_TYPE, m.name), BufferHash(STRING_TYPE, n.name);
    HashBound(m.value);
    HashBound(n.value);
    TagBound(STRING_TYPE, m.name);
    TagBound(STRING_TYPE, n.name);
    MixBound(0, a);
    MixBound(0, b);
    MixSeparates(0, a, 0, b);
    MixSeparates(Mix(0, a), HashOf(m.value), Mix(0, b), HashOf(n.value));
  }

  // ----- numbers -----

  const FRACTION: nat := 0x10_0000_0000_0000

  lemma Fractions()
    ensures Pow(2, 52) == FRACTION && Pow(2, 53) == 2 * FRACTION
  {
    assert Pow(2, 8) == 0x100;
    assert Pow(2, 16) == 0x1_0000;
    assert Pow(2, 24) == 0x100_0000;
    assert Pow(2, 32) == 0x1_0000_0000;
    assert Pow(2, 40) == 0x100_0000_0000;
    assert Pow(2, 48) == 0x1_0000_0000_0000;
  }

  lemma {:induction false} Log2Is(m: nat)
    requires m > 0
    ensures Pow(2, Log2(m)) <= m < Pow(2, Log2(m) + 1)
  {
    if m > 1 { Log2Is(m / 2); }
  }

  lemma {:induction false} PowAdds(a: nat, b: nat)
    ensures Pow(2, a + b) == Pow(2, a) * Pow(2, b)
  {
    if a > 0 {
      PowAdds(a - 1, b);
      assert Pow(2, a + b) == 2 * Pow(2, a - 1 + b);
    } else {
      assert Pow(2, 0) == 1;
    }
  }

  /** The value of a positive binary64 pattern with exponent `e` and fraction `f` is
      (2^52 + f) * 2^(e - 1075). For integers of up to 53 bits that is the integer. */
  lemma SmallPattern(m: nat)
    requires 0 < m < 2 * FRACTION
    ensures var e, f := DoublePattern(m) / FRACTION, DoublePattern(m) % FRACTION;
      1023 <= e <= 1075 && FRACTION + f == m * Pow(2, 1075 - e)
  {
    hide Pow, Log2, DoublePattern;
    var e := Log2(m);
    var u := SmallParts(m);
    Splits(DoublePattern(m), e + 1023, m * u - FRACTION);
    assert 1075 - (e + 1023) == 52 - e;
  }

  lemma SmallParts(m: nat) returns (u: nat)
    requires 0 < m < 2 * FRACTION
    ensures var e := Log2(m);
      e <= 52 && u == Pow(2, 52 - e) && FRACTION <= m * u < 2 * FRACTION && DoublePattern(m) == (e + 1022) * FRACTION + m * u
  {
    var e := Log2(m);
    u := if e <= 52 then Pow(2, 52 - e) else 1;
    assert e <= 52 ==> DoublePattern(m) == (e + 1022) * FRACTION + m * u;
    Fractions();
    Log2Is(m);
    hide Pow, Log2, DoublePattern;
    if e > 52 { PowGrows(53, e); }
    PowAdds(e, 52 - e);
    PowAdds(e + 1, 52 - e);
    Scales(Pow(2, e), m, Pow(2, e + 1), u);
  }

  lemma Splits(pattern: nat, e: nat, f: nat)
    requires pattern == e * FRACTION + f && f < FRACTION
    ensures pattern / FRACTION == e && pattern % FRACTION == f
  {
  }

  lemma Scales(a: nat, m: nat, b: nat, u: nat)
    requires a <= m < b && u > 0
    ensures a * u <= m * u < b * u
  {
  }

  lemma {:induction false} PowGrows(a: nat, b: nat)
    requires a <= b
    ensures Pow(2, a) <= Pow(2, b)
  {
    if a < b { PowGrows(a, b - 1); }
  }

  /** The parts of the pattern of a wider integer. */
  lemma WideParts(m: nat) returns (unit: nat, significand: nat)
    requires m >= 2 * FRACTION
    ensures var e := Log2(m);
      && e >= 53 && unit == Pow(2, e - 52) && Pow(2, e - 51) == 2 * unit
      && FRACTION * unit <= m && 2 * (if significand * unit > m then significand * unit - m else m - significand * unit) <= unit
      && FRACTION <= significand <= 2 * FRACTION && DoublePattern(m) == (e + 1022) * FRACTION + significand
      && (2 * (if significand * unit > m then significand * unit - m else m - significand * unit) == unit ==> significand % 2 == 0)
  {
    Fractions();
    Log2Is(m);
    var e := Log2(m);
    if e < 53 { PowGrows(e + 1, 53); }
    unit := Pow(2, e - 52);
    PowAdds(52, e - 52);
    PowAdds(53, e - 52);
    assert Pow(2, e - 51) == 2 * unit;
    significand := RoundedShift(m, e - 52);
    assert DoublePattern(m) == (e + 1022) * FRACTION + significand;
    Rounds(m, e - 52);
    hide Pow, Log2, RoundedShift, DoublePattern;
    SignificandFits(m, unit, significand);
  }

  /** Wider integers are rounded to the nearest: the relative error is at most 2^-53, and of two
      that are equally near the even one is taken. */
  lemma WidePattern(m: nat)
    requires m >= 2 * FRACTION
    ensures var e, f := DoublePattern(m) / FRACTION, DoublePattern(m) % FRACTION;
      e > 1075 && var v := (FRACTION + f) * Pow(2, e - 1075);
      2 * FRACTION * (if v > m then v - m else m - v) <= m
      && (2 * (if v > m then v - m else m - v) == Pow(2, e - 1075) ==> f % 2 == 0)
  {
    var unit, significand := WideParts(m);
    var e := Log2(m);
    hide Pow, Log2, DoublePattern;
    RelativeError(m, unit, significand * unit);
    if significand < 2 * FRACTION {
      Splits(DoublePattern(m), e + 1023, significand - FRACTION);
      HiddenBit(significand);
      assert e + 1023 - 1075 == e - 52;
    } else {
      Splits(DoublePattern(m), e + 1024, 0);
      DoubledUnit(unit);
      assert e + 1024 - 1075 == e - 51;
    }
  }

  /** Taking the hidden bit away keeps the lowest. */
  lemma HiddenBit(significand: nat)
    requires significand >= FRACTION
    ensures significand % 2 == 0 ==> (significand - FRACTION) % 2 == 0
    ensures FRACTION + (significand - FRACTION) == significand
  {
  }

  lemma DoubledUnit(unit: nat)
    ensures 2 * FRACTION * unit == (FRACTION + 0) * (2 * unit)
  {
  }

  lemma Rounds(m: nat, shift: nat)
    ensures var unit, v := Pow(2, shift), RoundedShift(m, shift) * Pow(2, shift);
      2 * (if v > m then v - m else m - v) <= unit
      && (2 * (if v > m then v - m else m - v) == unit ==> RoundedShift(m, shift) % 2 == 0)
  {
    var unit := Pow(2, shift);
    var q, r := m / unit, m % unit;
    Quotient(m, unit, q, r);
    hide Pow;
    assert RoundedShift(m, shift) == if 2 * r > unit || (2 * r == unit && q % 2 == 1) then q + 1 else q;
    hide RoundedShift;
    assert RoundedShift(m, shift) * unit == q * unit || RoundedShift(m, shift) * unit == (q + 1) * unit;
  }

  lemma Quotient(m: nat, unit: nat, q: nat, r: nat)
    requires unit > 0 && q == m / unit && r == m % unit
    ensures m == q * unit + r && r < unit && (q + 1) * unit == q * unit + unit
  {
  }

  lemma SignificandFits(m: nat, unit: nat, significand: nat)
    requires unit > 0 && FRACTION * unit <= m < 2 * FRACTION * unit
    requires 2 * (if significand * unit > m then significand * unit - m else m - significand * unit) <= unit
    ensures FRACTION <= significand <= 2 * FRACTION
  {
    if significand < FRACTION { Apart(significand, FRACTION, unit); }
    if significand > 2 * FRACTION { Apart(2 * FRACTION, significand, unit); }
  }

  lemma Apart(a: nat, b: nat, unit: nat)
    requires a < b
    ensures a * unit + unit <= b * unit
  {
    var k := b - a - 1;
    Distributes(a + 1, k, unit);
    Distributes(a, 1, unit);
    NotNegative(k, unit);
  }

  lemma Distributes(a: nat, k: nat, unit: nat)
    ensures (a + k) * unit == a * unit + k * unit
  {
  }

  lemma NotNegative(k: nat, unit: nat)
    ensures k * unit >= 0
  {
  }

  lemma RelativeError(m: nat, unit: nat, v: nat)
    requires FRACTION * unit <= m && 2 * (if v > m then v - m else m - v) <= unit
    ensures 2 * FRACTION * (if v > m then v - m else m - v) <= m
  {
    var d := if v > m then v - m else m - v;
    assert 2 * FRACTION * d == FRACTION * (2 * d);
    assert FRACTION * (2 * d) <= FRACTION * unit;
  }

  /** The sign is the highest bit. */
  lemma NegativePattern(m: nat)
    requires 0 < m < WRAP
    ensures DoublePattern(-(m as int)) == DoublePattern(m) + 0x8000_0000_0000_0000
    ensures 0 < DoublePattern(m) < 0x8000_0000_0000_0000
  {
    if m < 2 * FRACTION {
      SmallPattern(m);
    } else {
      var unit, significand := WideParts(m);
      Wraps();
      Log2Is(m);
      if Log2(m) > 63 { PowGrows(64, Log2(m)); }
    }
    SignOnly(m);
    hide Pow, Log2, DoublePattern;
  }

  lemma SignOnly(m: nat)
    requires m > 0
    ensures DoublePattern(-(m as int)) == DoublePattern(m) + 0x8000_0000_0000_0000
  {
    hide Pow, Log2, RoundedShift;
  }

  /** The number that bytes denote, the lowest first. */
  function LittleValue(t: Bytes): nat {
    if t == [] then 0 else t[0] + 256 * LittleValue(t[1..])
  }

  lemma {:induction false} LittleEndianHolds(n: nat, count: nat)
    ensures |LittleEndian(n, count)| == count
    ensures n < Pow(256, count) ==> LittleValue(LittleEndian(n, count)) == n
    decreases count
  {
    if count > 0 {
      LittleEndianHolds(n / 256, count - 1);
      assert LittleEndian(n, count)[1..] == LittleEndian(n / 256, count - 1);
      if n < Pow(256, count) { assert n / 256 < Pow(256, count - 1); }
    }
  }

  lemma EightBytes()
    ensures Pow(256, 8) == WRAP
  {
    assert Pow(256, 2) == 0x1_0000;
    assert Pow(256, 4) == 0x1_0000_0000;
    assert Pow(256, 6) == 0x1_0000_0000_0000;
  }

  lemma SignShows(n: Int64Or)
    ensures DoublePattern(n) < WRAP && (DoublePattern(n) < 0x8000_0000_0000_0000 <==> n >= 0)
  {
    if n > 0 { NegativePattern(n); } else if n < 0 { NegativePattern(-n); } else { PatternOfZero(); }
    hide DoublePattern;
  }

  lemma PatternOfZero()
    ensures DoublePattern(0) == 0
  {
  }

  lemma ImageParts(n: Int64Or)
    ensures var t := NumberImage(n);
      |t| == 16 && LittleValue(t[..8]) == n % WRAP && LittleValue(t[8..]) == DoublePattern(n)
  {
    hide DoublePattern, LittleEndian, LittleValue, Pow;
    EightBytes();
    SignShows(n);
    var x, y := LittleEndian(n % WRAP, 8), LittleEndian(DoublePattern(n), 8);
    LittleEndianHolds(n % WRAP, 8);
    LittleEndianHolds(DoublePattern(n), 8);
    assert (x + y)[..8] == x && (x + y)[8..] == y;
  }

  /** Two integers a number of the DOM can hold have two images: where 64 bits are the same, the
      sign of the double is not. */
  lemma ImagesDiffer(a: Int64Or, b: Int64Or)
    requires a != b
    ensures NumberImage(a) != NumberImage(b)
  {
    hide *;
    ImageParts(a);
    ImageParts(b);
    SignShows(a);
    SignShows(b);
    if a % WRAP == b % WRAP { SameRemainder(a, b); }
  }

  lemma SameRemainder(a: Int64Or, b: Int64Or)
    requires a != b && a % WRAP == b % WRAP
    ensures a >= 0 <==> b < 0
  {
  }

  // ----- the lowest bits of a hash -----

  lemma XorQuarters(a: Code, b: Code)
    ensures Xor(a, b) % 4 == Xor(a % 4, b % 4)
  {
    hide Xor;
    Quarter(a);
    Quarter(b);
    XorAlike(a, b, a % 4, b % 4);
  }

  lemma XorAlike(a: Code, b: Code, c: Code, d: Code)
    requires c < 4 && d < 4 && c % 2 == a % 2 && d % 2 == b % 2 && c / 2 % 2 == a / 2 % 2 && d / 2 % 2 == b / 2 % 2
    ensures Xor(a, b) % 4 == Xor(c, d)
  {
    hide *;
    FourIsPower();
    XorBound(c, d, 2);
    XorParity(a, b, c, d);
    XorParity(a / 2, b / 2, c / 2, d / 2);
    XorHalves(a, b);
    XorHalves(c, d);
    SameQuarters(Xor(a, b), Xor(c, d), Xor(a / 2, b / 2), Xor(c / 2, d / 2));
  }

  lemma XorParity(a: Code, b: Code, c: Code, d: Code)
    requires a % 2 == c % 2 && b % 2 == d % 2
    ensures Xor(a, b) % 2 == Xor(c, d) % 2
  {
    hide *;
    XorHalves(a, b);
    XorHalves(c, d);
  }

  lemma FourIsPower()
    ensures Pow(2, 2) == 4
  {
  }

  lemma SameQuarters(x: nat, y: nat, u: nat, v: nat)
    requires x % 2 == y % 2 && x / 2 == u && y / 2 == v && u % 2 == v % 2 && y < 4
    ensures x % 4 == y
  {
  }

  lemma Quarter(x: nat)
    ensures x % 4 == x % 2 + 2 * (x / 2 % 2) && x % 4 % 2 == x % 2 && x % 4 / 2 % 2 == x / 2 % 2
    ensures x < 4 ==> x % 4 == x
  {
  }

  /** The lowest two bits of a hash. */
  function Low(h: Code, data: Bytes): Code
    requires h < 4
    decreases |data|
  {
    if data == [] then h else Low(Xor(h, data[0] % 4) * 3 % 4, data[1..])
  }

  lemma MixLow(h: Code, d: Code)
    ensures Mix(h, d) % 4 == Xor(h % 4, d % 4) * 3 % 4
  {
    XorQuarters(h, d);
    hide Xor;
    WrapKeepsQuarter(Xor(h, d) * 0x100000001b3);
    PrimeQuarter(Xor(h, d));
  }

  lemma WrapKeepsQuarter(y: nat)
    ensures y % 0x1_0000_0000_0000_0000 % 4 == y % 4
  {
    var q, r := y / 0x1_0000_0000_0000_0000, y % 0x1_0000_0000_0000_0000;
    assert y == 4 * (q * 0x4000_0000_0000_0000) + r;
  }

  lemma PrimeQuarter(x: nat)
    ensures x * 0x100000001b3 % 4 == x % 4 * 3 % 4
  {
    assert x * 0x100000001b3 == 4 * (x * 0x400000006c) + 3 * x;
    assert 3 * x == 4 * (3 * (x / 4)) + 3 * (x % 4);
  }

  lemma {:induction false} BytesLow(h: Code, data: Bytes)
    ensures MixBytes(h, data) % 4 == Low(h % 4, data)
    decreases |data|
  {
    hide Mix, Xor;
    if data != [] {
      MixLow(h, data[0]);
      BytesLow(Mix(h, data[0]), data[1..]);
    }
  }

  lemma {:induction false} LowAppends(h: Code, a: Bytes, b: Bytes)
    requires h < 4
    ensures Low(h, a) < 4 && Low(h, a + b) == Low(Low(h, a), b)
    decreases |a|
  {
    hide Xor;
    if a == [] {
      assert a + b == b;
    } else {
      assert (a + b)[1..] == a[1..] + b;
      LowAppends(Xor(h, a[0] % 4) * 3 % 4, a[1..], b);
    }
  }

  function LowNumber(h: Code, x: nat, count: nat): Code
    requires h < 4
    decreases count
  {
    if count == 0 then h else LowNumber(Xor(h, x % 4) * 3 % 4, x / 256, count - 1)
  }

  lemma {:induction false} LowOfNumber(h: Code, x: nat, count: nat)
    requires h < 4
    ensures Low(h, LittleEndian(x, count)) == LowNumber(h, x, count)
    decreases count
  {
    if count > 0 {
      hide Xor;
      assert LittleEndian(x, count)[1..] == LittleEndian(x / 256, count - 1);
      assert x % 256 % 4 == x % 4;
      LowOfNumber(Xor(h, x % 4) * 3 % 4, x / 256, count - 1);
    }
  }

  lemma LowOfImage(n: Int64Or, x: nat, y: nat, h: Code, l: Code)
    requires n % WRAP == x && DoublePattern(n) == y && h == Mix(0xcbf29ce484222325, NUMBER_TYPE) % 4
    requires l == LowNumber(h, x, 8) && l < 4
    ensures HashOf(Number(n)) % 4 == LowNumber(l, y, 8)
  {
    hide Mix, Xor, Low, LowNumber, LittleEndian, DoublePattern;
    BytesLow(Mix(0xcbf29ce484222325, NUMBER_TYPE), NumberImage(n));
    LowAppends(h, LittleEndian(x, 8), LittleEndian(y, 8));
    LowOfNumber(h, x, 8);
    LowOfNumber(l, y, 8);
  }

  lemma PatternsOfOneAndTwo()
    ensures DoublePattern(1) == 0x3ff0_0000_0000_0000 && DoublePattern(2) == 0x4000_0000_0000_0000
  {
    Fractions();
    assert Log2(1) == 0 && Log2(2) == 1 && Pow(2, 52) == 2 * Pow(2, 51);
    hide Pow;
  }

  /** A byte without low bits only triples. */
  lemma LowTriples(h: Code, x: nat, count: nat)
    requires h < 4 && x % 4 == 0
    ensures LowNumber(h, x, count + 1) == LowNumber(h * 3 % 4, x / 256, count)
  {
    XorZero(h);
    hide Xor;
  }

  lemma {:induction false} LowOfZero(h: Code, count: nat)
    requires h < 4
    ensures LowNumber(h, 0, count) == if count % 2 == 0 then h else h * 3 % 4
    decreases count
  {
    if count > 0 {
      hide LowNumber, Xor;
      LowTriples(h, 0, count - 1);
      LowOfZero(h * 3 % 4, count - 1);
      TripledTwice(h);
    } else {
      hide Xor;
    }
  }

  lemma TripledTwice(h: nat)
    requires h < 4
    ensures h * 3 % 4 < 4 && h * 3 % 4 * 3 % 4 == h
  {
  }

  lemma LowStarts(h: Code, x: nat, count: nat)
    requires h < 4
    ensures LowNumber(h, x, count + 1) == LowNumber(Xor(h, x % 4) * 3 % 4, x / 256, count)
  {
    hide Xor;
  }

  lemma SmallXors()
    ensures Xor(1, 1) == 0 && Xor(1, 2) == 3 && Xor(0, 3) == 3
  {
  }

  lemma LowOfOne()
    ensures LowNumber(1, 1, 8) == 0 && LowNumber(0, 0x3ff0_0000_0000_0000, 8) == 1
  {
    hide Xor, LowNumber;
    SmallXors();
    LowStarts(1, 1, 7);
    LowOfZero(0, 7);
    LowTriples(0, 0x3ff0_0000_0000_0000, 7);
    LowTriples(0, 0x3f_f000_0000_0000, 6);
    LowTriples(0, 0x3ff0_0000_0000, 5);
    LowTriples(0, 0x3f_f000_0000, 4);
    LowTriples(0, 0x3ff0_0000, 3);
    LowTriples(0, 0x3f_f000, 2);
    LowTriples(0, 0x3ff0, 1);
    LowStarts(0, 0x3f, 0);
    LowOfZero(1, 0);
  }

  lemma LowOfTwo()
    ensures LowNumber(1, 2, 8) == 3 && LowNumber(3, 0x4000_0000_0000_0000, 8) == 3
  {
    hide Xor, LowNumber;
    SmallXors();
    LowStarts(1, 2, 7);
    LowOfZero(1, 7);
    LowTriples(3, 0x4000_0000_0000_0000, 7);
    LowTriples(1, 0x40_0000_0000_0000, 6);
    LowTriples(3, 0x4000_0000_0000, 5);
    LowTriples(1, 0x40_0000_0000, 4);
    LowTriples(3, 0x4000_0000, 3);
    LowTriples(1, 0x40_0000, 2);
    LowTriples(3, 0x4000, 1);
    LowTriples(1, 0x40, 0);
    LowOfZero(3, 0);
  }

  lemma TagLow()
    ensures Mix(0xcbf29ce484222325, NUMBER_TYPE) % 4 == 1
  {
    hide Mix, Xor;
    MixLow(0xcbf29ce484222325, NUMBER_TYPE);
    SmallXors();
    assert 0xcbf29ce484222325 % 4 == 1 && NUMBER_TYPE % 4 == 2;
  }

  /** The numbers 1 and 2 have two hashes. */
  lemma OneIsNotTwo()
    ensures HashOf(Number(1)) != HashOf(Number(2))
  {
    hide Mix, Xor, HashOf, DoublePattern, LowNumber;
    TagLow();
    PatternsOfOneAndTwo();
    LowOfOne();
    LowOfTwo();
    LowOfImage(1, 1, 0x3ff0_0000_0000_0000, 1, 0);
    LowOfImage(2, 2, 0x4000_0000_0000_0000, 1, 3);
  }
}