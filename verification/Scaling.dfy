/** The scaling of gdtoa in mode 0: from the bits of a number to the integers of the digit loop. */
module Scaling {
  import opened Words
  import opened Bigints
  import opened Products
  import opened Shifts
  import opened RightShifts
  import opened BitCounts
  import opened PowersOfFive
  import opened Quorems

  function Plus(x: int): nat
  {
    if x > 0 then x else 0
  }

  /** v * 2^e over 10^k as a quotient of two whole numbers. */
  function Num(v: nat, e: int, k: int): nat
  {
    v * Pow(2, Plus(e)) * Pow(10, Plus(-k))
  }

  function Den(e: int, k: int): (d: nat)
    ensures d > 0
  {
    Pow(2, Plus(-e)) * Pow(10, Plus(k))
  }

  /** x/S is v * 2^e / 10^k. */
  ghost predicate Ratio(x: nat, S: nat, v: nat, e: int, k: int)
  {
    x * Den(e, k) == S * Num(v, e, k)
  }

  /** The number v 2^p 5^q. */
  function Scaled(v: nat, p: nat, q: nat): nat
  {
    v * (Pow(2, p) * Pow(5, q))
  }

  lemma ScaledMul(v: nat, p: nat, q: nat, p': nat, q': nat)
    ensures Scaled(v, p, q) * (Pow(2, p') * Pow(5, q')) == Scaled(v, p + p', q + q')
  {
    PowAdd(2, p, p');
    PowAdd(5, q, q');
    hide Pow;
    MulAssoc(v, Pow(2, p) * Pow(5, q), Pow(2, p') * Pow(5, q'));
    MulSwap(Pow(2, p), Pow(5, q), Pow(2, p'), Pow(5, q'));
  }

  lemma Pow10Is(k: nat)
    ensures Pow(10, k) == Pow(2, k) * Pow(5, k)
  {
    PowMulBase(2, 5, k);
  }

  lemma NumScaled(v: nat, e: int, k: int)
    ensures Num(v, e, k) == Scaled(v, Plus(e) + Plus(-k), Plus(-k))
  {
    var p, q := Plus(e), Plus(-k);
    Pow10Is(q);
    PowAdd(2, p, q);
    hide Pow;
    MulAssoc(Pow(2, p), Pow(2, q), Pow(5, q));
    MulAssoc(v, Pow(2, p), Pow(2, q) * Pow(5, q));
  }

  lemma DenScaled(e: int, k: int)
    ensures Den(e, k) == Pow(2, Plus(-e) + Plus(k)) * Pow(5, Plus(k))
  {
    var p, q := Plus(-e), Plus(k);
    Pow10Is(q);
    PowAdd(2, p, q);
    hide Pow;
    MulAssoc(Pow(2, p), Pow(2, q), Pow(5, q));
  }

  /** Exponents that differ as they should give the ratio. */
  lemma ExponentsGiveRatio(v: nat, e: int, k: int, x2: nat, x5: nat, s2: nat, s5: nat)
    requires x2 - s2 == e - k && x5 - s5 == -k
    ensures Ratio(Scaled(v, x2, x5), Scaled(1, s2, s5), v, e, k)
  {
    var ep, en, kp, kn := Plus(e), Plus(-e), Plus(k), Plus(-k);
    NumScaled(v, e, k);
    DenScaled(e, k);
    ScaledMul(v, x2, x5, en + kp, kp);
    ScaledMul(v, ep + kn, kn, s2, s5);
    assert x2 + (en + kp) == ep + kn + s2 && x5 + kp == kn + s5;
    ScaledOne(s2, s5);
    hide Pow, Scaled, Num, Den;
    MultSwapped(Scaled(1, s2, s5), Num(v, e, k));
  }

  lemma ScaledOne(p: nat, q: nat)
    ensures Scaled(1, p, q) == Pow(2, p) * Pow(5, q)
  {
  }

  /** The number of binary digits: no bits for zero. */
  ghost predicate BitsAre(v: nat, n: nat)
  {
    if v == 0 then n == 0 else HasBits(v, n)
  }

  lemma WordsFor(nbits: nat, i: nat, k: nat)
    requires nbits > 0 && i == 32 * Pow(2, k) && i >= nbits
    ensures (nbits - 1) / 32 < Pow(2, k)
  {
  }

  /** Reads nbits bits into a number, without leading zero words, and counts them. */
  method BitsToB(bits: array<Word>, nbits: nat) returns (b: Bigint, bbits: nat)
    requires 0 < nbits && (nbits - 1) / 32 < bits.Length
    ensures fresh(b) && fresh(b.x) && b.Valid() && (b.wds == 0 || b.x[b.wds - 1] != 0)
    ensures b.Value() == Value(bits[..(nbits - 1) / 32 + 1]) && BitsAre(b.Value(), bbits)
    ensures b.wds == 0 ==> b.Ok()
  {
    hide Words.Value, Weight, Pow, HasBits;
    var i, k := 32, 0;
    Pow2Steps(0);
    while i < nbits
      invariant i == 32 * Pow(2, k) > 0
      decreases nbits - i
    {
      Pow2Steps(k);
      i := 2 * i;
      k := k + 1;
    }
    WordsFor(nbits, i, k);
    b := new Bigint.Balloc(k);
    var be, x := (nbits - 1) / 32, 0;
    while true
      invariant 0 <= x <= be && b.wds == 0
      invariant b.x[..x] == bits[..x]
      decreases be - x
    {
      b.x[x] := bits[x];
      x := x + 1;
      if x > be {
        break;
      }
    }
    ghost var s := b.x[..x];
    assert s == bits[..be + 1];
    i := x - 1;
    while b.x[i] == 0
      invariant 0 <= i < x && b.Valid() && b.wds == 0 && b.x[..x] == s
      invariant forall j :: i < j < x ==> b.x[j] == 0
      decreases i
    {
      if i == 0 {
        ValueZeros(s);
        ValueZeros(b.x[..0]);
        return b, 0;
      }
      i := i - 1;
    }
    b.wds := i + 1;
    var h := Hi0Bits(b.x[i]);
    bbits := i * 32 + 32 - h;
    ValueTopZero(s, i + 1);
    assert s[..i + 1] == b.x[..i + 1];
    BitsFromTop(b.x[..i + 1], h);
    NonZeroBits(b.Value(), bbits);
  }

  /** The binary exponent of half a unit in the last place: nbits bits, or the emin grid below it. */
  function HalfUlp(be: int, bbits: nat, nbits: nat, emin: int): int
  {
    if be - (nbits - bbits) < emin then emin - 1 else be - (nbits - bbits) - 1
  }

  /** The powers of 2 and 5 that b, S and the gaps are to be scaled by. */
  datatype Exponents = Exponents(b2: nat, s2: nat, s5: nat, m2: nat, m5: nat)

  /** b2^b2 5^m5 over 2^s2 5^s5 scales by 2^be / 10^k, and the gap by 2^he / 10^k in place of 2^be. */
  ghost predicate ScalesBy(x: Exponents, be: int, he: int, k: int)
  {
    x.b2 - x.s2 == be - k && x.m5 - x.s5 == -k && x.m2 - x.s2 == he - k
  }

  /** The exponents before alignment, powers of two common to all removed. */
  method ChooseExponents(be: int, bbits: nat, nbits: nat, emin: int, k: int) returns (x: Exponents)
    requires 0 < bbits <= nbits && emin <= be
    ensures ScalesBy(x, be, HalfUlp(be, bbits, nbits, emin), k)
    ensures x.m2 < x.b2 && (x.m2 == 0 || x.s2 == 0) && (x.m5 == 0 || x.s5 == 0)
    ensures x.b2 - x.m2 <= nbits - bbits + 1
  {
    var i := be + bbits - 1;
    var j := bbits - i - 1;
    var b2, s2, b5, s5: int;
    if j >= 0 {
      b2, s2 := 0, j;
    } else {
      b2, s2 := -j, 0;
    }
    if k >= 0 {
      b5, s5 := 0, k;
      s2 := s2 + k;
    } else {
      b2 := b2 - k;
      b5, s5 := -k, 0;
    }
    var m2, m5 := b2, b5;
    i := nbits - bbits;
    if be - i < emin {
      i := be - emin + 1;
    } else {
      i := i + 1;
    }
    b2 := b2 + i;
    s2 := s2 + i;
    if m2 > 0 && s2 > 0 {
      i := if m2 < s2 then m2 else s2;
      b2 := b2 - i;
      m2 := m2 - i;
      s2 := s2 - i;
    }
    x := Exponents(b2, s2, s5, m2, m5);
  }

  /** The shift that leaves the divisor's top word with 28 bits; top counts the bits of its top word. */
  method Align(x0: Exponents, top: nat) returns (x: Exponents)
    requires 0 < top <= 32
    ensures x.s5 == x0.s5 && x.m5 == x0.m5 && x.s2 >= x0.s2
    ensures x.b2 - x0.b2 == x.m2 - x0.m2 == x.s2 - x0.s2
    ensures (top + x.s2) % 32 == 28
  {
    x := x0;
    var i := (top + x.s2) % 32;
    if i != 0 {
      i := 32 - i;
    }
    if i > 4 {
      i := i - 4;
      x := x.(b2 := x.b2 + i, m2 := x.m2 + i, s2 := x.s2 + i);
    } else if i < 4 {
      i := i + 28;
      x := x.(b2 := x.b2 + i, m2 := x.m2 + i, s2 := x.s2 + i);
    }
  }
}
