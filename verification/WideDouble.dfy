/** 2^-1021, the one double whose gap reaches down too far, is printed well all the same. */
module WideDouble {
  import opened Words
  import opened BitCounts
  import opened Digits
  import opened Scaling
  import opened DecimalMeaning
  import opened PrintedMeaning
  import opened DoubleText
  import opened Gdtoa

  /** 2^n lies between a and b times 10^j. */
  ghost predicate Between(n: nat, a: nat, b: nat, j: nat)
  {
    a * Pow(10, j) <= Pow(2, n) <= b * Pow(10, j)
  }

  /** Squares, doubled c times, with i digits less. */
  lemma Squared(n: nat, a: nat, b: nat, j: nat, c: nat, a': nat, b': nat, i: nat)
    requires Between(n, a, b, j) && a' * Pow(10, i) <= Pow(2, c) * (a * a) && Pow(2, c) * (b * b) <= b' * Pow(10, i)
    ensures Between(2 * n + c, a', b', 2 * j + i)
  {
    var t, w, p := Pow(10, j), Pow(2, n), Pow(2, c);
    PowAdd(2, n, n);
    PowAdd(2, c, 2 * n);
    PowAdd(10, j, j);
    PowAdd(10, i, 2 * j);
    assert 2 * n == n + n && 2 * j == j + j;
    hide Pow;
    SquareMono(a, t, w);
    SquareMono'(b, t, w);
    Scaling3(a', Pow(10, i), p, a * a, t * t, w * w);
    Scaling3'(b', Pow(10, i), p, b * b, t * t, w * w);
  }

  lemma SquareMono(a: nat, t: nat, w: nat)
    requires a * t <= w
    ensures (a * a) * (t * t) <= w * w
  {
    MulSwap(a, a, t, t);
    ProductMono(a * t, w, a * t, w);
  }

  lemma SquareMono'(b: nat, t: nat, w: nat)
    requires w <= b * t
    ensures w * w <= (b * b) * (t * t)
  {
    MulSwap(b, b, t, t);
    ProductMono(w, b * t, w, b * t);
  }

  lemma Scaling3(a: nat, d: nat, p: nat, s: nat, t: nat, w: nat)
    requires a * d <= p * s && s * t <= w
    ensures a * (d * t) <= p * w
  {
    MulAssoc(a, d, t);
    ProductMono(a * d, p * s, t, t);
    MulAssoc(p, s, t);
    MulMono(p, s * t, w);
  }

  lemma Scaling3'(b: nat, d: nat, p: nat, s: nat, t: nat, w: nat)
    requires p * s <= b * d && w <= s * t
    ensures p * w <= b * (d * t)
  {
    MulAssoc(b, d, t);
    ProductMono(p * s, b * d, t, t);
    MulAssoc(p, s, t);
    MulMono(p, w, s * t);
  }

  lemma TenPowers()
    ensures Pow(10, 17) == 100_000_000_000_000_000 && Pow(10, 23) == 100_000_000_000_000_000_000_000
    ensures Pow(10, 24) == 1_000_000_000_000_000_000_000_000 && Pow(10, 0) == 1 && Pow(2, 0) == 1 && Pow(2, 1) == 2
  {
    SixteenDigits();
    PowAdd(10, 16, 1);
    PowAdd(10, 17, 6);
    assert Pow(10, 6) == 1_000_000;
    PowAdd(10, 23, 1);
  }

  lemma SixtySevenBits()
    ensures Pow(2, 67) == 147573952589676412928
  {
    Pow2Of32();
    hide Pow;
    PowAdd(2, 32, 32);
    PowAdd(2, 64, 3);
    assert Pow(2, 3) == 8 by {
      ThreeBits();
    }
  }

  lemma ThreeBits()
    ensures Pow(2, 3) == 8
  {
  }

  /** 2^1075 to twenty-two digits. */
  lemma LargePower()
    ensures Between(1075, 404804506614621236704976, 404804506614621236704997, 300)
  {
    TenPowers();
    SixtySevenBits();
    hide Pow;
    assert Between(67, 147573952589676412928, 147573952589676412928, 0);
    Squared(67, 147573952589676412928, 147573952589676412928, 0, 0, 217780714829400616616559, 217780714829400616616560,
      17);
    Squared(134, 217780714829400616616559, 217780714829400616616560, 17, 0,
      474284397516047136454943, 474284397516047136454948, 23);
    Squared(268, 474284397516047136454943, 474284397516047136454948, 57, 1,
      449891379454319638281046, 449891379454319638281057, 24);
    Squared(537, 449891379454319638281046, 449891379454319638281057, 138, 1,
      404804506614621236704976, 404804506614621236704997, 24);
  }

  /** w is 2^54 times q, and u is to q as 2^1075 to 10^323. */
  ghost predicate Scale(w: real, q: real, u: real)
  {
    q > 0.0 && u > 0.0 && w == 18014398509481984.0 * q &&
    404804506614621236704976.0 * q <= 100_000_000_000_000_000_000_000.0 * u <= 404804506614621236704997.0 * q
  }

  /** The same about the reciprocals: q = 2^-1075 against u = 10^-323. */
  lemma SmallUnits(w: real)
    requires w == 18014398509481984.0 * RPow(2, -1075)
    ensures Scale(w, RPow(2, -1075), RPow(10, -323))
  {
    LargePower();
    TenPowers();
    hide Pow, RPow;
    RPowInverse(2, 1075);
    RPowInverse(10, 323);
    PowAdd(10, 300, 23);
    Reciprocal(404804506614621236704976, 404804506614621236704997, Pow(10, 300), Pow(10, 23), Pow(2, 1075),
      RPow(2, 0 - 1075), RPow(10, 0 - 323));
  }

  lemma Reciprocal(a: nat, b: nat, t: nat, s: nat, w: nat, q: real, u: real)
    requires t > 0 && s > 0 && a * t <= w <= b * t && q > 0.0 && u > 0.0
    requires q * (w as real) == 1.0 && u * ((t * s) as real) == 1.0
    ensures a as real * q <= s as real * u <= b as real * q
  {
    RealMul(a, t);
    RealMul(b, t);
    RealMul(t, s);
    ReciprocalReals(a as real, b as real, t as real, s as real, w as real, q, u);
  }

  lemma ReciprocalReals(a: real, b: real, t: real, s: real, w: real, q: real, u: real)
    requires t > 0.0 && a * t <= w <= b * t && q > 0.0
    requires q * w == 1.0 && u * (t * s) == 1.0
    ensures a * q <= s * u <= b * q
  {
    assert (s * u) * t == 1.0 by {
      RSwap(u, 1.0, t, s);
      assert (u * s) * t == u * (t * s);
    }
    assert (a * q) * t <= 1.0 by {
      RCancel(a * t, w, q);
      assert (a * q) * t == (a * t) * q;
    }
    assert (b * q) * t >= 1.0 by {
      RCancel(w, b * t, q);
      assert (b * q) * t == (b * t) * q;
    }
    RCancel(a * q, s * u, t);
    RCancel(s * u, b * q, t);
  }

  /** Its mantissa is 2^52, and its last place 2^-1073. */
  lemma WideGap(x: Double, bb: nat)
    requires x.Mantissa() == 0x10_0000_0000_0000 && x.Exponent() == EMIN + 1 && bb > 0 && HasBits(x.Mantissa(), bb)
    ensures var q := RPow(2, -1075);
      Placed(2, x.Mantissa(), x.Exponent()) == 18014398509481984.0 * q && GapDown(x, bb) == GapUp(x, bb) == q + q
  {
    FiftyThreeBits(bb);
    hide RPow, Pow, Double.Mantissa, Double.Exponent;
    Doubles(-1075);
    Doubles(-1074);
  }

  lemma FiftyThreeBits(bb: nat)
    requires bb > 0 && HasBits(0x10_0000_0000_0000, bb)
    ensures bb == 53
  {
    DoublePowers();
    assert Pow(2, 53) == 2 * Pow(2, 52);
    hide Pow;
    HasBitsUnique(0x10_0000_0000_0000, bb, 53);
  }

  /** Sixteen digits are near enough, and one less is too far. */
  lemma SixteenAreEnough(w: real, q: real, u: real)
    requires Scale(w, q, u)
    ensures w - q <= 4450147717014403.0 * u <= w + q
    ensures 4450147717014400.0 * u < w - 2.0 * q && w + 2.0 * q < 4450147717014410.0 * u
    ensures 1000000000000000.0 * u < w - 2.0 * q
  {
  }

  lemma SixteenReads(w: real, q: real, even: bool)
    requires Scale(w, q, RPow(10, -323))
    ensures var y := Decimal(4450147717014403, -323); w - q <= y <= w + q && Reads(y, w, q + q, q + q, even)
  {
    hide RPow;
    SixteenAreEnough(w, q, RPow(10, -323));
  }

  lemma TensAndUnits()
    ensures RPow(10, -322) == 10.0 * RPow(10, -323) && RPow(10, -308) == 1000000000000000.0 * RPow(10, -323)
  {
    hide Pow, RPow;
    RPowAdd(10, 1, -323);
    RPowWhole(10, 1);
    RPowAdd(10, 15, -323);
    RPowWhole(10, 15);
    SixteenDigits();
    PowAdd(10, 15, 1);
  }

  /** No decimal of fifteen digits is in the gap. */
  lemma NoneOfFifteen(M: nat, e: int, w: real, q: real, even: bool)
    requires M < Pow(10, 15) && Scale(w, q, RPow(10, -323))
    ensures !Reads(Decimal(M, e), w, q + q, q + q, even)
  {
    TensAndUnits();
    hide Pow, RPow, Scale;
    if e >= -322 {
      DecimalShift(M, e + 322, -322);
      NoTen(M * Pow(10, e + 322), RPow(10, -323), w, q, even);
    } else {
      FinerBelow(M, e, 15, -308);
      TooSmall(Decimal(M, e), RPow(10, -323), w, q, even);
    }
  }

  lemma TooSmall(y: real, u: real, w: real, q: real, even: bool)
    requires Scale(w, q, u) && y < 1000000000000000.0 * u
    ensures !Reads(y, w, q + q, q + q, even)
  {
    SixteenAreEnough(w, q, u);
  }

  lemma TenFirst(a: real, u: real, y: real)
    requires y == a * (10.0 * u)
    ensures y == (10.0 * a) * u
  {
  }

  lemma NoTen(Q: nat, u: real, w: real, q: real, even: bool)
    requires Scale(w, q, u)
    ensures !Reads(Q as real * (10.0 * u), w, q + q, q + q, even)
  {
    hide *;
    var y := Q as real * (10.0 * u);
    TenFirst(Q as real, u, y);
    NoTenAt(Q, 10.0 * Q as real, y, u, w, q, even);
  }

  lemma Scaled(y: real, s: real, t: real, u: real)
    requires y == s * u && u > 0.0
    ensures (s <= t ==> y <= t * u) && (s >= t ==> y >= t * u)
  {
    RCancel(s, t, u);
    RCancel(t, s, u);
  }

  lemma NoTenAt(Q: nat, t: real, y: real, u: real, w: real, q: real, even: bool)
    requires Scale(w, q, u) && t == 10.0 * Q as real && y == t * u
    ensures !Reads(y, w, q + q, q + q, even)
  {
    hide *;
    SixteenAreEnough(w, q, u);
    ScaleUnit(w, q, u);
    if Q <= 445014771701440 {
      Scaled(y, t, 4450147717014400.0, u);
    } else {
      Scaled(y, t, 4450147717014410.0, u);
    }
    OutOfReach(y, w, q, even);
  }

  lemma ScaleUnit(w: real, q: real, u: real)
    requires Scale(w, q, u)
    ensures u > 0.0
  {
  }

  lemma OutOfReach(y: real, w: real, q: real, even: bool)
    requires y < w - 2.0 * q || w + 2.0 * q < y
    ensures !Reads(y, w, q + q, q + q, even)
  {
  }

  /** Fewer than sixteen digits do not read back. */
  lemma AtLeastSixteen(d: string, decpt: int, w: real, q: real, even: bool)
    requires AllDigits(d) && Scale(w, q, RPow(10, -323))
    requires Reads(Decimal(DigitsValue(d), decpt - |d|), w, q + q, q + q, even)
    ensures |d| >= 16 && 4450147717014403 < Pow(10, |d|)
  {
    hide *;
    DigitsBelow(d);
    if |d| <= 15 {
      PowMono(10, |d|, 15);
      NoneOfFifteen(DigitsValue(d), decpt - |d|, w, q, even);
      assert false;
    }
    PowMono(10, 16, |d|);
    SixteenDigits();
  }

  /** The text printed for it is at most a quarter of its last place away. */
  lemma WideText(x: Double, d: string, decpt: int, bb: nat)
    requires x.Mantissa() == 0x10_0000_0000_0000 && x.Exponent() == EMIN + 1 && Shortest(x, d, decpt, bb)
    ensures |d| > 0 && AllDigits(d)
    ensures Decimal(DigitsValue(d), decpt - |d|) >= Placed(2, x.Mantissa(), x.Exponent()) - RPow(2, -1075)
  {
    hide *;
    ShortestParts(x, d, decpt, bb);
    WideGap(x, bb);
    var w, q, even := Placed(2, x.Mantissa(), x.Exponent()), RPow(2, -1075), x.lo % 2 == 0;
    SmallUnits(w);
    AtLeastSixteen(d, decpt, w, q, even);
    SixteenReads(w, q, even);
    NearestIs(x, d, decpt, bb, 4450147717014403, -323);
    WithinQuarter(Decimal(DigitsValue(d), decpt - |d|), Decimal(4450147717014403, -323), w, q);
  }

  lemma ShortestParts(x: Double, d: string, decpt: int, bb: nat)
    requires Shortest(x, d, decpt, bb)
    ensures |d| > 0 && AllDigits(d) && bb > 0 && HasBits(x.Mantissa(), bb)
    ensures Reads(Decimal(DigitsValue(d), decpt - |d|), Placed(2, x.Mantissa(), x.Exponent()), GapDown(x, bb),
                  GapUp(x, bb), x.lo % 2 == 0)
  {
    hide Pow, RPow, Reads, DigitsValue, Decimal, Placed, GapDown, GapUp, NearestReading, HasBits, Double.Mantissa;
    hide Double.Exponent;
  }

  lemma NearestIs(x: Double, d: string, decpt: int, bb: nat, M': nat, e': int)
    requires Shortest(x, d, decpt, bb) && M' < Pow(10, |d|)
    requires Reads(Decimal(M', e'), Placed(2, x.Mantissa(), x.Exponent()), GapDown(x, bb), GapUp(x, bb), x.lo % 2 == 0)
    ensures var w := Placed(2, x.Mantissa(), x.Exponent());
      Distance(Decimal(DigitsValue(d), decpt - |d|), w) <= Distance(Decimal(M', e'), w)
  {
    hide Pow, RPow, Reads, DigitsValue, Decimal, Placed, GapDown, GapUp, ShortestReading, HasBits, Double.Mantissa;
    hide Double.Exponent;
  }

  lemma WithinQuarter(y: real, z: real, w: real, q: real)
    requires w - q <= z <= w + q && Distance(y, w) <= Distance(z, w)
    ensures y >= w - q
  {
  }
}
