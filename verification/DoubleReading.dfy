/** The text of a double, correctly rounded, is the double. */
module DoubleReading {
  import opened Words
  import opened Bigints
  import opened BitCounts
  import opened PowersOfFive
  import opened Digits
  import opened Scaling
  import opened SetUp
  import opened DecimalMeaning
  import opened PrintedMeaning
  import opened DecimalText
  import opened DecimalScanner
  import opened DecimalRoundTrip
  import opened DoubleText
  import Gdtoa
  import Gethex
  import ReadingBack
  import WideDouble

  const DOUBLE := Gethex.Fpi(53, EMIN, 971)

  /** A double that is a number and not zero. */
  predicate IsNumber(x: Double)
  {
    !x.IsNaN() && !x.IsInfinite() && !x.IsZero()
  }

  /** Correct rounding of y gives x. */
  ghost predicate RoundsToDouble(y: real, x: Double)
  {
    ReadingBack.RoundsTo(y, x.Mantissa(), x.Exponent(), DOUBLE)
  }

  lemma InFormat(x: Double)
    requires IsNumber(x)
    ensures ReadingBack.InFormat(x.Mantissa(), x.Exponent(), DOUBLE)
    ensures x.lo % 2 == x.Mantissa() % 2 && x.Mantissa() < Pow(2, 53)
  {
    DoublePowers();
    assert Pow(2, 53) == 2 * Pow(2, 52);
    MantissaRange(x);
    hide Pow;
  }

  lemma MantissaRange(x: Double)
    requires IsNumber(x)
    ensures 0 < x.Mantissa() < 0x20_0000_0000_0000 && x.lo % 2 == x.Mantissa() % 2
    ensures EMIN <= x.Exponent() <= 971 && (x.Exponent() > EMIN ==> x.Mantissa() >= 0x10_0000_0000_0000)
  {
    var f, b := x.hi % 0x10_0000, x.Biased();
    BiasedBelow(x);
    JoinRange(x.lo, f, b > 0);
    if x.Mantissa() == 0 {
      JoinBound(x.lo, if b > 0 then f + 0x10_0000 else f);
      MantissaZero(x.hi, x.lo);
      assert false;
    }
    hide Join, Double.Biased;
  }

  lemma BiasedBelow(x: Double)
    requires !x.IsNaN() && !x.IsInfinite()
    ensures x.Biased() < 0x7ff
  {
    assert x.Biased() < 0x800;
    hide Double.Biased;
  }

  lemma JoinRange(lo: Word, f: nat, lead: bool)
    requires f < 0x10_0000
    ensures var m := Join(lo, f + if lead then 0x10_0000 else 0);
      m < 0x20_0000_0000_0000 && m % 2 == lo % 2 && (lead ==> m >= 0x10_0000_0000_0000)
  {
  }

  /** The one double whose gap reaches down too far: 2^-1021. */
  predicate IsWide(x: Double)
  {
    x.Mantissa() == 0x10_0000_0000_0000 && x.Exponent() == EMIN + 1
  }

  /** What reads back as x is what is rounded to x. */
  lemma ReadsBackRounds(y: real, x: Double, bb: nat)
    requires IsNumber(x) && bb > 0 && HasBits(x.Mantissa(), bb)
    ensures RoundsToDouble(y, x) <==>
      ReadsBack(y, x, bb) && !(IsWide(x) && y < Placed(2, x.Mantissa(), x.Exponent()) - RPow(2, x.Exponent() - 2))
  {
    DoublePowers();
    assert Pow(2, 53) == 2 * Pow(2, 52);
    hide *;
    InFormat(x);
    ReadingBack.ReadsIsRounding(y, x.Mantissa(), bb, x.Exponent(), DOUBLE);
    SameGap(y, x, bb);
    WideIs(x);
    SameRounding(y, x);
  }

  lemma SameGap(y: real, x: Double, bb: nat)
    requires bb > 0 && x.lo % 2 == x.Mantissa() % 2
    ensures ReadsBack(y, x, bb) <==> ReadingBack.GapHas(y, x.Mantissa(), bb, x.Exponent(), DOUBLE)
  {
    hide Double.Mantissa, Double.Exponent, Placed, RPow, Pow, HalfUlp, Gdtoa.LowerGap, Gdtoa.LowerCloser;
  }

  lemma WideIs(x: Double)
    ensures IsWide(x) <==> x.Mantissa() == Pow(2, DOUBLE.nbits - 1) && x.Exponent() == DOUBLE.emin + 1
  {
    DoublePowers();
    assert Pow(2, 53) == 2 * Pow(2, 52);
    hide Pow, Double.Mantissa, Double.Exponent;
  }

  lemma SameRounding(y: real, x: Double)
    ensures DOUBLE.Valid() && (RoundsToDouble(y, x) <==> ReadingBack.RoundsTo(y, x.Mantissa(), x.Exponent(), DOUBLE))
  {
    hide ReadingBack.RoundsTo;
  }

  /** What is printed for a double is rounded to the double, 2^-1021 included. */
  lemma TextIsRounded(x: Double, d: string, decpt: int, bb: nat)
    requires IsNumber(x) && Shortest(x, d, decpt, bb)
    ensures |d| > 0 && AllDigits(d) && RoundsToDouble(Decimal(DigitsValue(d), decpt - |d|), x)
  {
    assert IsWide(x) ==> x.Mantissa() == 0x10_0000_0000_0000 && x.Exponent() == EMIN + 1 && x.Exponent() - 2 == -1075;
    hide *;
    ShortestReadsBack(x, d, decpt, bb);
    WideDouble.ShortestParts(x, d, decpt, bb);
    ReadsBackRounds(Decimal(DigitsValue(d), decpt - |d|), x, bb);
    if IsWide(x) {
      WideDouble.WideText(x, d, decpt, bb);
    }
  }

  /** A double written as text and read again: the digits that the scanner finds and the integer that s2b makes of
      them denote a decimal that is correctly rounded to the double. */
  method WriteAndReadDouble(b: array<char>, x: Double, bufsize: nat, k: int, kCheck: bool, cache: PowerCache)
    returns (end: int, r: Scanned, v: Bigint?, ghost d: string, ghost decpt: int, ghost bb: nat)
    requires cache.Valid() && b !in cache.Repr && bufsize <= b.Length
    requires x.Mantissa() > 0 ==> GoodEstimate(x.Mantissa(), x.Exponent(), k, kCheck)
    requires (kCheck ==> k < 0 || k > 22) && IsNumber(x)
    modifies cache, b
    ensures bufsize >= 25 ==> end >= 0
    ensures end >= 0 ==> Shortest(x, d, decpt, bb) && bb > 0
    ensures end >= 0 ==> r.Number? && r.minus == x.Negative() && r.end == end && v != null && v.Valid()
    ensures end >= 0 ==> RoundsToDouble(Decimal(v.Value(), r.e), x)
  {
    hide Pow, GoodEstimate, HasBits, PowerCache.Valid, Words.Value, Text, Shortest, RoundsToDouble, Decimal;
    hide DigitsValue;
    hide ReadDecimal, Run, DecimalScanner.Found, Double.Mantissa;
    end, d, decpt, bb := FormatDouble(b, x, bufsize, k, kCheck, cache);
    r, v := Scanned.NoNumber, null;
    if end >= 0 {
      TextIsRounded(x, d, decpt, bb);
      DoubleExponent(x, d, decpt, bb);
      ShortestReadsBack(x, d, decpt, bb);
      r, v := ReadNumber(b[..end]);
      TextFound(d, decpt, x.Negative(), r);
    }
  }
}
