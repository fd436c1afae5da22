/** Concrete numbers on which the printer and the reader fall short of their rule. */
module Exceptions {
  import opened Words
  import opened ShortestDecimal
  import opened Digits
  import opened DigitLoop
  import opened Scaling
  import opened DecimalMeaning
  import opened PrintedMeaning
  import opened SmallIntegers
  import opened Gdtoa
  import opened DoubleText
  import opened Rounding
  import opened HexText
  import opened Numerals
  import opened Gethex
  import ReadingBack

  // ----- printing -----

  /** No multiple of 10^p reads back as x. */
  ghost predicate NoneAt(p: int, x: real, lo: real, hi: real, even: bool)
  {
    forall Q: nat :: !Reads(Decimal(Q, p), x, lo, hi, even)
  }

  /** When a decimal T 10^p of t digits reads back, and none on the next coarser grid does, the shortest decimals that
      read back have that place and that length, and the nearest is no farther. */
  lemma PlaceFound(M: nat, e: int, n: nat, x: real, lo: real, hi: real, even: bool, inex: Inexact, T: nat, p: int,
                   t: nat)
    requires n > 0 && t > 0 && M < Pow(10, n) && PrintsWell(M, e, n, x, lo, hi, even, inex)
    requires 0 < T < Pow(10, t) && Reads(Decimal(T, p), x, lo, hi, even)
    requires RPow(10, p + t - 1) < x - lo && NoneAt(p + 1, x, lo, hi, even)
    ensures n == t && e == p && Distance(Decimal(M, p), x) <= Distance(Decimal(T, p), x)
    ensures Reads(Decimal(M, p), x, lo, hi, even)
    ensures FlagSays(inex, x, Decimal(M, p), Misnamed(x, lo, hi, even, p))
  {
    hide *;
    WellParts(M, e, n, x, lo, hi, even, inex);
    ReadsAbove(Decimal(M, e), x, lo, hi, even);
    if n > t {
      PowMono(10, t, n - 1);
      NotShorter(M, e, n, x, lo, hi, even, inex, T, p);
      assert false;
    }
    PowMono(10, n, t);
    if e > p {
      CoarserOut(M, e, p, x, lo, hi, even);
      assert false;
    }
    if e + n < p + t {
      FinerBelow(M, e, n, p + t - 1);
      assert false;
    }
    NotFarther(M, e, n, x, lo, hi, even, inex, T, p);
  }

  lemma WellParts(M: nat, e: int, n: nat, x: real, lo: real, hi: real, even: bool, inex: Inexact)
    requires n > 0 && PrintsWell(M, e, n, x, lo, hi, even, inex)
    ensures Reads(Decimal(M, e), x, lo, hi, even)
    ensures FlagSays(inex, x, Decimal(M, e), Misnamed(x, lo, hi, even, e))
  {
    hide Pow, Decimal, Reads, Misnamed, SideNamed;
  }

  lemma NotShorter(M: nat, e: int, n: nat, x: real, lo: real, hi: real, even: bool, inex: Inexact, T: nat, p: int)
    requires n > 0 && PrintsWell(M, e, n, x, lo, hi, even, inex) && 0 < T < Pow(10, n - 1)
    ensures !Reads(Decimal(T, p), x, lo, hi, even)
  {
    hide Pow, Decimal, Reads, NearestReading, Misnamed, SideNamed;
  }

  lemma NotFarther(M: nat, e: int, n: nat, x: real, lo: real, hi: real, even: bool, inex: Inexact, T: nat, p: int)
    requires n > 0 && PrintsWell(M, e, n, x, lo, hi, even, inex) && T < Pow(10, n)
    requires Reads(Decimal(T, p), x, lo, hi, even)
    ensures Distance(Decimal(M, e), x) <= Distance(Decimal(T, p), x)
  {
    hide Pow, Decimal, Reads, ShortestReading, Misnamed, SideNamed, Distance;
  }

  lemma CoarserOut(M: nat, e: int, p: int, x: real, lo: real, hi: real, even: bool)
    requires e > p && NoneAt(p + 1, x, lo, hi, even)
    ensures !Reads(Decimal(M, e), x, lo, hi, even)
  {
    hide Pow, Decimal, Reads;
    DecimalShift(M, e - p - 1, p + 1);
  }

  lemma ReadsAbove(y: real, x: real, lo: real, hi: real, even: bool)
    requires Reads(y, x, lo, hi, even)
    ensures y >= x - lo
  {
  }

  lemma Sixteenth()
    ensures RPow(2, 4) == 16.0 && RPow(2, 3) == 8.0 && RPow(2, 2) == 4.0 && RPow(2, 1) == 2.0
    ensures RPow(10, 0) == 1.0 && RPow(10, 1) == 10.0 && RPow(10, 2) == 100.0
  {
  }

  lemma TenPowers()
    ensures Pow(10, 16) == 10_000_000_000_000_000 && Pow(10, 15) == 1_000_000_000_000_000
    ensures RPow(10, 16) == 10_000_000_000_000_000.0
  {
    SixteenDigits();
    assert Pow(10, 16) == 10 * Pow(10, 15);
    RPowWhole(10, 16);
  }

  lemma FiftyTwoBits()
    ensures Pow(2, 52) == 4503599627370496
  {
    DoublePowers();
    assert Pow(2, 53) == 2 * Pow(2, 52);
  }

  /** 2^56 + 80, as a double the odd multiple 4503599627370501 of 2^4. */
  const BETWEEN: real := 72057594037928016.0

  lemma BetweenIs(M: nat, e: int, n: nat, inex: Inexact)
    requires n > 0 && Prints(M, e, n, inex, 4503599627370501, 53, 4, 53, -1074, false)
    ensures Placed(2, 4503599627370501, 4) == BETWEEN
    ensures M < Pow(10, n) && PrintsWell(M, e, n, BETWEEN, 8.0, 8.0, false, inex)
  {
    Sixteenth();
    FiftyTwoBits();
    TenPowers();
    hide Pow, RPow, PrintsWell;
    assert HalfUlp(4, 53, 53, -1074) == 3;
    assert !SmallInteger(BETWEEN);
  }

  lemma BetweenReads()
    ensures Decimal(7205759403792801, 1) == BETWEEN - 6.0 && Decimal(7205759403792802, 1) == BETWEEN + 4.0
    ensures Reads(Decimal(7205759403792802, 1), BETWEEN, 8.0, 8.0, false)
    ensures RPow(10, 1 + 16 - 1) < BETWEEN - 8.0
    ensures NoneAt(2, BETWEEN, 8.0, 8.0, false)
  {
    Sixteenth();
    TenPowers();
    hide RPow, Pow;
  }

  /** 72057594037928016 is printed as 7205759403792802 with one more place before the point. That is more, but the
      flag says less: 7205759403792801 reads back, too. */
  lemma FlagNamesWrongSide(M: nat, e: int, n: nat, inex: Inexact)
    requires n > 0 && Prints(M, e, n, inex, 4503599627370501, 53, 4, 53, -1074, false)
    ensures Placed(2, 4503599627370501, 4) == BETWEEN
    ensures M == 7205759403792802 && e == 1 && Decimal(M, e) > BETWEEN && inex == Inexlo
  {
    BetweenIs(M, e, n, inex);
    BetweenReads();
    TenPowers();
    hide Pow, RPow, Decimal, PrintsWell, Prints, Misnamed;
    PlaceFound(M, e, n, BETWEEN, 8.0, 8.0, false, inex, 7205759403792802, 1, 16);
    MisnamedAtIs(7205759403792801, BETWEEN, 8.0, 8.0, false, 1);
    Tens(M);
  }

  lemma Tens(M: nat)
    ensures Decimal(M, 1) == 10.0 * M as real && Decimal(M, 0) == M as real
  {
    Sixteenth();
    hide RPow;
  }

  lemma MisnamedAtIs(D: nat, x: real, lo: real, hi: real, even: bool, e: int)
    requires MisnamedAt(D, x, lo, hi, even, e)
    ensures Misnamed(x, lo, hi, even, e)
  {
  }

  /** 2^54, as a double 2^52 times 2^2. */
  const POWER: real := 18014398509481984.0

  lemma PowerIs(M: nat, e: int, n: nat, inex: Inexact)
    requires n > 0 && Prints(M, e, n, inex, 4503599627370496, 53, 2, 53, -1074, true)
    ensures Placed(2, 4503599627370496, 2) == POWER
    ensures M < Pow(10, n) && PrintsWell(M, e, n, POWER, 1.0, 2.0, true, inex)
  {
    Sixteenth();
    FiftyTwoBits();
    TenPowers();
    hide Pow, RPow, PrintsWell;
    assert HalfUlp(2, 53, 53, -1074) == 1;
    assert !SmallInteger(POWER);
  }

  lemma PowerReads()
    ensures Decimal(18014398509481984, 0) == POWER && Decimal(18014398509481985, 0) == POWER + 1.0
    ensures Reads(Decimal(18014398509481984, 0), POWER, 1.0, 2.0, true)
    ensures RPow(10, 0 + 17 - 1) < POWER - 1.0
    ensures NoneAt(1, POWER, 1.0, 2.0, true)
  {
    Sixteenth();
    TenPowers();
    hide RPow, Pow;
  }

  /** All digits of 2^54 are printed, and yet it is called too high: the next whole number reads back, too. */
  lemma ExactCalledInexact(M: nat, e: int, n: nat, inex: Inexact)
    requires n > 0 && Prints(M, e, n, inex, 4503599627370496, 53, 2, 53, -1074, true)
    ensures Placed(2, 4503599627370496, 2) == POWER
    ensures M == 18014398509481984 && e == 0 && Decimal(M, e) == POWER && inex == Inexhi
  {
    PowerIs(M, e, n, inex);
    PowerReads();
    TenPowers();
    assert 18014398509481984 < Pow(10, 17) by {
      assert Pow(10, 17) == 10 * Pow(10, 16);
    }
    hide Pow, RPow, Decimal, PrintsWell, Prints, Misnamed;
    PlaceFound(M, e, n, POWER, 1.0, 2.0, true, inex, 18014398509481984, 0, 17);
    MisnamedAtIs(18014398509481984, POWER, 1.0, 2.0, true, 0);
    Tens(M);
  }

  /** 2^40 + 2^17 in a format of 24 bits. */
  const LONG: real := 1099511758848.0

  /** Its thirteen digits are printed, though eight are enough: 10995118 10^5 reads back, too. */
  lemma LongInteger(M: nat, e: int, n: nat, inex: Inexact)
    requires n > 0 && Prints(M, e, n, inex, 8388609, 24, 17, 24, -149, false)
    ensures Placed(2, 8388609, 17) == LONG && HalfUlp(17, 24, 24, -149) == 16 && !LowerCloser(8388609, 24, 17, -149)
    ensures M == 1099511758848 && e == 0 && n > 8
    ensures Reads(Decimal(10995118, 5), LONG, RPow(2, 16), RPow(2, 16), false)
  {
    LongPowers();
    hide Pow, RPow, PrintsWell;
    assert SmallInteger(LONG);
    LongDigits(M, e, n);
    Tens(M);
  }

  lemma LongPowers()
    ensures RPow(2, 17) == 131072.0 && RPow(2, 16) == 65536.0 && RPow(10, 5) == 100000.0
    ensures Pow(2, 23) == 8388608 && Pow(10, 8) == 100_000_000 && Pow(10, 15) == 1_000_000_000_000_000
  {
    TenPowers();
    Pow2Of32();
    assert Pow(2, 16) == 65536 && Pow(2, 17) == 131072;
    PowAdd(2, 16, 7);
    assert Pow(2, 7) == 128;
  }

  lemma LongDigits(M: nat, e: int, n: nat)
    requires n > 0 && PrintsExactly(M, e, n, LONG, Exact)
    ensures M == 1099511758848 && e == 0 && n > 8
  {
    LongPowers();
    Tens(M);
    if e > 0 {
      DecimalShift(M, e - 1, 1);
      Tens(M * Pow(10, e - 1));
      WholeTens(M * Pow(10, e - 1));
      assert false;
    }
    if n <= 8 {
      PowMono(10, n, 8);
    }
  }

  lemma WholeTens(Q: nat)
    ensures 10.0 * Q as real != LONG
  {
    assert 10 * Q != 1099511758848;
    assert (10 * Q) as real == 10.0 * Q as real;
  }

  /** 2^-5 in a format of four bits with last place 2^-9 at the least. */
  const FOUR: Fpi := Fpi(4, -9, 9)

  lemma FourPowers()
    ensures RPow(2, -8) == 1.0 / 256.0 && RPow(2, -9) == 1.0 / 512.0 && RPow(2, -10) == 1.0 / 1024.0
    ensures RPow(10, -1) == 0.1 && RPow(10, -2) == 0.01
  {
    assert Pow(2, 5) == 32;
    PowAdd(2, 5, 3);
    PowAdd(2, 5, 4);
    PowAdd(2, 5, 5);
  }

  lemma FourIs(M: nat, e: int, n: nat, inex: Inexact)
    requires n > 0 && Prints(M, e, n, inex, 8, 4, -8, 4, -9, true)
    ensures Placed(2, 8, -8) == 1.0 / 32.0 && RPow(2, -9) == 1.0 / 512.0
    ensures M < Pow(10, n) && PrintsWell(M, e, n, 1.0 / 32.0, 1.0 / 512.0, 1.0 / 512.0, true, inex)
  {
    FourPowers();
    hide Pow, RPow, PrintsWell;
    assert HalfUlp(-8, 4, 4, -9) == -9;
    assert !SmallInteger(1.0 / 32.0);
  }

  lemma FourReads(M: nat)
    ensures Decimal(M, -2) == M as real * 0.01
    ensures RPow(10, -2 + 1 - 1) < 1.0 / 32.0 - 1.0 / 512.0
    ensures NoneAt(-1, 1.0 / 32.0, 1.0 / 512.0, 1.0 / 512.0, true)
  {
    FourPowers();
    hide RPow, Pow;
  }

  lemma FourRounds()
    ensures !ReadingBack.RoundsTo(0.03, 8, -8, FOUR)
  {
    FourPowers();
    assert Pow(2, 3) == 8 && Pow(2, 4) == 16;
    hide RPow, Pow, ReadingBack.RoundsTo, ReadingBack.GapHas;
    ReadingBack.ReadsIsRounding(0.03, 8, 4, -8, FOUR);
  }

  /** 2^-5 = 0.03125 is printed as 0.03, which is rounded to another number of the format, 15/512. */
  lemma TextReadsAsOther(M: nat, e: int, n: nat, inex: Inexact)
    requires n > 0 && Prints(M, e, n, inex, 8, 4, -8, 4, -9, true)
    ensures Placed(2, 8, -8) == 0.03125 && FOUR.Valid()
    ensures M == 3 && e == -2 && Decimal(M, e) == 0.03 && !ReadingBack.RoundsTo(Decimal(M, e), 8, -8, FOUR)
  {
    FourIs(M, e, n, inex);
    FourReads(3);
    FourReads(M);
    FourRounds();
    assert Pow(10, 1) == 10;
    hide Pow, RPow, Decimal, PrintsWell, Prints, Misnamed, ReadingBack.RoundsTo;
    PlaceFound(M, e, n, 1.0 / 32.0, 1.0 / 512.0, 1.0 / 512.0, true, inex, 3, -2, 1);
  }

  // ----- reading -----

  const TINY := "0x1.00000000000001p-1075"

  lemma TinyMantissa()
    ensures ReadMantissa(TINY) == Mantissa("1", "00000000000001", 18) && TextDigits(TINY) == Pow(2, 56) + 1
  {
    hide HexValue, Pow;
    HexEndIs(TINY, 2, 3);
    HexEndIs(TINY, 4, 18);
    TinyParts();
    TinyDigits();
  }

  lemma TinyParts()
    ensures TINY[2..3] == "1" && TINY[4..18] == "00000000000001"
  {
    assert TINY == "0x" + "1" + "." + "00000000000001" + "p-1075";
  }

  lemma TinyDigits()
    ensures HexValue("1" + "00000000000001") == Pow(2, 56) + 1
  {
    hide Pow;
    var z, one := "0000000000000", "1";
    HexValueCons('1', z + one);
    LeadingZeros(z, one);
    assert z + one == "00000000000001" && ['1'] + (z + one) == "1" + "00000000000001";
    OneIs();
    PowPow(2, 4, 14);
  }

  lemma OneIs()
    ensures HexValue("1") == 1 && HexDigit('1') == 1 && Pow(2, 4) == 16
  {
    assert "1"[..0] == "";
  }

  lemma TinyExponent()
    ensures ReadExponent(TINY, 18).value == -1075
  {
    hide DigitsValue;
    DecimalEndIs(TINY, 20, 24);
    assert TINY[20..24] == "1075";
    ReadFour();
  }

  /** A double just above half the least one reads as zero: 2^-1075 + 2^-1131. */
  lemma ReadsAsZero()
    ensures TextReal(TINY) == RPow(2, -1075) + RPow(2, -1131) && Misrounds(TextReal(TINY), Fpi(53, -1074, 971))
  {
    hide Pow, RPow, ReadMantissa, ReadExponent, TextDigits, Multiple;
    TinyMantissa();
    TinyExponent();
    RPowNext(-1131, 56);
    Next(Pow(2, 56), RPow(2, -1131));
    RPowOrder(-1131, -1127);
  }

  lemma ReadFour()
    ensures DigitsValue("1075") == 1075
  {
    assert "1075"[..3] == "107" && "107"[..2] == "10" && "10"[..1] == "1" && "1"[..0] == "";
    assert DigitsValue("1") == 1;
    assert DigitsValue("10") == 10;
    assert DigitsValue("107") == 107;
  }

  const FAINT := "0x1p-1342177280"

  /** A format with far smaller numbers than doubles. */
  const WIDE := Fpi(53, -2_000_000_000, 971)

  lemma FaintMantissa()
    ensures ReadMantissa(FAINT) == Mantissa("1", "", 3) && TextDigits(FAINT) == 1
  {
    hide HexValue;
    HexEndIs(FAINT, 2, 3);
    assert FAINT[2..3] == "1" && "1" + "" == "1";
    OneIs();
  }

  lemma FaintExponent()
    ensures ReadExponent(FAINT, 3) == Exponent(-1342177280, true, true, 15)
  {
    hide DigitsValue;
    DecimalEndIs(FAINT, 5, 15);
    assert FAINT[5..15] == "134217728" + "0" && FAINT[5..14] == "134217728";
    ReadTen();
  }

  lemma ReadTen()
    ensures DigitsValue("134217728") == 0x800_0000 && DigitsValue("134217728" + "0") == 1342177280
  {
    assert "1"[..0] == "" && "13"[..1] == "1" && "134"[..2] == "13" && "1342"[..3] == "134" && "13421"[..4] == "1342";
    assert DigitsValue("1") == 1;
    assert DigitsValue("13") == 13;
    assert DigitsValue("134") == 134;
    assert DigitsValue("1342") == 1342;
    assert DigitsValue("13421") == 13421;
    assert "134217"[..5] == "13421" && "1342177"[..6] == "134217" && "13421772"[..7] == "1342177";
    assert DigitsValue("134217") == 134217;
    assert DigitsValue("1342177") == 1342177;
    assert DigitsValue("13421772") == 13421772;
    assert "134217728"[..8] == "13421772";
    DigitsSnoc("134217728", 0);
  }

  /** An exponent of ten digits is not read, even when the format has numbers that small: 2^-1342177280 is one of them,
      and zero is the wrong answer. */
  lemma FarReadsAsZero()
    ensures ReadExponent(FAINT, ReadMantissa(FAINT).end).big && ReadExponent(FAINT, ReadMantissa(FAINT).end).negative
    ensures TextDigits(FAINT) == 1 && TextReal(FAINT) == RPow(2, -1342177280)
    ensures !CorrectlyRounded(TextReal(FAINT), WIDE, Kind.Zero, Inexlo, 0, 0)
  {
    FaintMantissa();
    FaintExponent();
    hide *;
    TextIs(FAINT);
    WideIs();
    FarAnswer(FAINT, WIDE);
    RPowOrder(-2_000_000_001, -1342177280);
    OneOf(RPow(2, -1342177280));
  }

  lemma WideIs()
    ensures WIDE.Valid() && WIDE.emin - 1 == -2_000_000_001 && |FAINT| == 15
  {
  }

  lemma OneOf(p: real)
    ensures Multiple(1, p) == p
  {
  }
}
