/** g_dfmt: the shortest text for a double, and what reading that text finds. */
module DoubleText {
  import opened Words
  import opened Bigints
  import opened BitCounts
  import opened PowersOfFive
  import opened Digits
  import opened Numerals
  import opened Scaling
  import opened SetUp
  import opened DecimalMeaning
  import opened Rounding
  import opened PrintedMeaning
  import opened SmallIntegers
  import opened DigitLoop
  import opened Gdtoa
  import opened DecimalText
  import opened DecimalWriter
  import opened DecimalScanner
  import opened DecimalRoundTrip

  /** Two words as one number. */
  function Join(lo: nat, hi: nat): nat
  {
    lo + 0x1_0000_0000 * hi
  }

  /** A double as its two words: sign, biased exponent and fraction. */
  datatype Double = Double(hi: Word, lo: Word) {
    predicate Negative() {
      hi >= 0x8000_0000
    }

    function Biased(): nat {
      hi / 0x10_0000 % 0x800
    }

    predicate IsNaN() {
      Biased() == 0x7ff && (hi % 0x10_0000 != 0 || lo != 0)
    }

    predicate IsInfinite() {
      Biased() == 0x7ff && !IsNaN()
    }

    predicate IsZero() {
      hi % 0x8000_0000 == 0 && lo == 0
    }

    /** The integer and the power of two whose product the double is. */
    function Mantissa(): nat {
      Join(lo, hi % 0x10_0000 + if Biased() > 0 then 0x10_0000 else 0)
    }

    function Exponent(): int {
      (if Biased() > 0 then Biased() else 1) - 1075
    }
  }

  /** The place of the last bit of the smallest double. */
  const EMIN := -1074

  lemma DoubleBits(x: Double, bits: seq<Word>)
    requires |bits| == 2 && bits[0] == x.lo
    requires bits[1] == x.hi % 0x10_0000 + if x.Biased() > 0 then 0x10_0000 else 0
    ensures Value(bits) == x.Mantissa() < Pow(2, 53) < Pow(10, 16)
    ensures x.Mantissa() == 0 ==> x.IsZero()
    ensures x.Exponent() >= EMIN
  {
    hide Pow, Value;
    DoubleValue(bits);
    DoublePowers();
    JoinBound(bits[0], bits[1]);
    if x.Mantissa() == 0 {
      MantissaZero(x.hi, x.lo);
    }
  }

  lemma DoubleValue(bits: seq<Word>)
    requires |bits| == 2
    ensures Value(bits) == Join(bits[0], bits[1])
  {
    ValueOne(bits[..1]);
    ValueStep(bits, 1);
    assert bits[..2] == bits;
  }

  lemma TwentyOneBits()
    ensures Pow(2, 21) == 0x20_0000
  {
    PowAdd(2, 5, 16);
    Pow2Of32();
    hide Pow;
    assert Pow(2, 5) == 32 by {
      FiveBits();
    }
  }

  lemma FiveBits()
    ensures Pow(2, 5) == 32
  {
  }

  lemma SixteenDigits()
    ensures Pow(10, 16) == 10_000_000_000_000_000
  {
    hide Pow;
    PowAdd(10, 4, 4);
    PowAdd(10, 8, 8);
    FourDigits();
  }

  lemma FourDigits()
    ensures Pow(10, 4) == 10_000
  {
  }

  lemma DoublePowers()
    ensures Pow(2, 53) == 0x20_0000_0000_0000 && Pow(2, 53) < Pow(10, 16)
  {
    hide Pow;
    PowAdd(2, 32, 21);
    Pow2Of32();
    TwentyOneBits();
    SixteenDigits();
  }

  lemma JoinBound(lo: Word, hi: nat)
    ensures hi < 0x20_0000 ==> Join(lo, hi) < 0x20_0000_0000_0000
    ensures Join(lo, hi) == 0 <==> lo == 0 && hi == 0
  {
  }

  lemma MantissaZero(hi: Word, lo: Word)
    requires hi % 0x10_0000 == 0 && hi / 0x10_0000 % 0x800 == 0 && lo == 0
    ensures hi % 0x8000_0000 == 0
  {
  }

  /** Copies a text and a zero byte to place p. */
  method PutText(b: array<char>, p: nat, t: string) returns (end: nat)
    requires p + |t| < b.Length
    modifies b
    ensures end == p + |t| && b[..end] == old(b[..p]) + t && b[end] == '\0'
    ensures forall i :: end < i < b.Length ==> b[i] == old(b[i])
  {
    end := p;
    for i := 0 to |t|
      invariant end == p + i && b[..end] == old(b[..p]) + t[..i]
      invariant forall j :: end <= j < b.Length ==> b[j] == old(b[j])
    {
      assert t[..i + 1] == t[..i] + [t[i]];
      end := Put(b, end, t[i]);
    }
    assert t[..|t|] == t;
    b[end] := '\0';
  }

  /** What is written for numbers that have no digits. */
  function Special(x: Double): string
  {
    if x.IsNaN() then "NaN" else (if x.Negative() then "-" else "") + if x.IsInfinite() then "Infinity" else "0"
  }

  /** How far up from a double, bb bits wide in its mantissa, other numbers still read back as it, and how far down. */
  ghost function GapUp(x: Double, bb: nat): real
  {
    RPow(2, HalfUlp(x.Exponent(), bb, 53, EMIN))
  }

  ghost function GapDown(x: Double, bb: nat): real
    requires bb > 0
  {
    LowerGap(GapUp(x, bb), LowerCloser(x.Mantissa(), bb, x.Exponent(), EMIN))
  }

  /** d, with its point behind decpt digits, is the shortest decimal for a double, of its length the nearest, and of
      two equally near ones the even one. */
  ghost predicate Shortest(x: Double, d: string, decpt: int, bb: nat)
  {
    |d| > 0 && AllDigits(d) && bb > 0 && HasBits(x.Mantissa(), bb) &&
    var w, M, e := Placed(2, x.Mantissa(), x.Exponent()), DigitsValue(d), decpt - |d|;
    ShortestReading(M, e, |d|, w, GapDown(x, bb), GapUp(x, bb), x.lo % 2 == 0) &&
    NearestReading(M, e, |d|, w, GapDown(x, bb), GapUp(x, bb), x.lo % 2 == 0) &&
    EvenOnTie(M, e, w, GapDown(x, bb), GapUp(x, bb), x.lo % 2 == 0)
  }

  /** The gap of a double below 10^15 is less than one. */
  lemma SmallGap(x: Double, bb: nat)
    requires bb > 0 && HasBits(x.Mantissa(), bb) && SmallInteger(Placed(2, x.Mantissa(), x.Exponent()))
    ensures 0.0 < GapDown(x, bb) <= GapUp(x, bb) < 1.0
  {
    hide *;
    var m, e, w := x.Mantissa(), x.Exponent(), Placed(2, x.Mantissa(), x.Exponent());
    var he := HalfUlp(e, bb, 53, EMIN);
    TopBit(m, bb, e);
    FifteenDigits(w);
    if bb - 1 + e >= 50 {
      RPowOrder(50, bb - 1 + e);
      assert false;
    }
    HalfUlpDown(e, bb);
    RPowGrows(2, he, 0);
    PowerZero();
    GapsAre(x, bb, he);
  }

  lemma GapsAre(x: Double, bb: nat, he: int)
    requires bb > 0 && he == HalfUlp(x.Exponent(), bb, 53, EMIN)
    ensures GapUp(x, bb) == RPow(2, he) && 0.0 < GapDown(x, bb) <= GapUp(x, bb)
  {
    hide RPow, HalfUlp, LowerCloser;
    LowerNotMore(RPow(2, he), LowerCloser(x.Mantissa(), bb, x.Exponent(), EMIN));
  }

  lemma PowerZero()
    ensures RPow(2, 0) == 1.0
  {
  }

  lemma HalfUlpDown(e: int, bb: nat)
    requires bb - 1 + e < 50
    ensures HalfUlp(e, bb, 53, EMIN) < 0
  {
  }

  /** A number with bb bits is at least its top bit. */
  lemma TopBit(m: nat, bb: nat, e: int)
    requires bb > 0 && HasBits(m, bb)
    ensures RPow(2, bb - 1 + e) <= Placed(2, m, e)
  {
    hide Pow, RPow;
    RPowAdd(2, bb - 1, e);
    RPowWhole(2, bb - 1);
    RCancel(Pow(2, bb - 1) as real, m as real, RPow(2, e));
  }

  lemma FifteenDigits(w: real)
    requires SmallInteger(w)
    ensures w < RPow(2, 50)
  {
    hide Pow;
    TwentyOneBits();
    SixteenDigits();
    PowAdd(10, 15, 1);
    PowAdd(2, 21, 8);
    PowAdd(2, 21, 29);
    EightBits();
    RPowWhole(2, 50);
  }

  lemma EightBits()
    ensures Pow(2, 8) == 256
  {
  }

  /** What gdtoa prints for a double is always the shortest decimal: whole numbers below 10^15 are, too. */
  lemma PrintsDouble(s: string, n: nat, decpt: int, inex: Inexact, x: Double, bb: nat)
    requires 0 < n < |s| && HasBits(x.Mantissa(), bb) && bb > 0 && AllDigits(s[..n])
    requires Prints(DigitsValue(s[..n]), decpt - n, n, inex, x.Mantissa(), bb, x.Exponent(), 53, EMIN, x.lo % 2 == 0)
    ensures Shortest(x, s[..n], decpt, bb)
  {
    hide *;
    var M, e, w, even := DigitsValue(s[..n]), decpt - n, Placed(2, x.Mantissa(), x.Exponent()), x.lo % 2 == 0;
    PrintsCases(M, e, n, inex, x, bb, even);
    if SmallInteger(w) {
      SmallGap(x, bb);
      ExactWell(M, e, n, w, GapDown(x, bb), GapUp(x, bb), even);
    }
    ShortestIs(s[..n], decpt, inex, x, bb);
  }

  lemma PrintsCases(M: nat, e: int, n: nat, inex: Inexact, x: Double, bb: nat, even: bool)
    requires n > 0 && bb > 0 && Prints(M, e, n, inex, x.Mantissa(), bb, x.Exponent(), 53, EMIN, even)
    ensures var w := Placed(2, x.Mantissa(), x.Exponent());
      if SmallInteger(w) then PrintsExactly(M, e, n, w, Exact) && inex == Exact
      else PrintsWell(M, e, n, w, GapDown(x, bb), GapUp(x, bb), even, inex)
  {
    hide Pow, RPow, PrintsWell, LowerCloser, LowerGap, Placed, SmallInteger, HalfUlp, Decimal;
  }

  lemma ShortestIs(d: string, decpt: int, inex: Inexact, x: Double, bb: nat)
    requires |d| > 0 && AllDigits(d) && bb > 0 && HasBits(x.Mantissa(), bb)
    requires PrintsWell(DigitsValue(d), decpt - |d|, |d|, Placed(2, x.Mantissa(), x.Exponent()), GapDown(x, bb),
                        GapUp(x, bb), x.lo % 2 == 0, inex)
    ensures Shortest(x, d, decpt, bb)
  {
    hide HasBits, ShortestReading, NearestReading, Misnamed, SideNamed, GapUp, GapDown, Placed, DigitsValue, Decimal;
  }

  /** The decimal y reads back as x under rounding to nearest. */
  ghost predicate ReadsBack(y: real, x: Double, bb: nat)
    requires bb > 0
  {
    Reads(y, Placed(2, x.Mantissa(), x.Exponent()), GapDown(x, bb), GapUp(x, bb), x.lo % 2 == 0)
  }

  lemma ShortestReadsBack(x: Double, d: string, decpt: int, bb: nat)
    requires Shortest(x, d, decpt, bb)
    ensures |d| > 0 && AllDigits(d) && bb > 0 && ReadsBack(Decimal(DigitsValue(d), decpt - |d|), x, bb)
  {
    hide Pow, RPow, Decimal, Reads, GapUp, GapDown, DigitsValue, Placed, NearestReading, Double.Mantissa;
    hide Double.Exponent;
  }

  // ----- the exponent of the text of a double is small -----

  lemma {:induction false} BaseMono(a: nat, b: nat, e: nat)
    requires a <= b
    ensures Pow(a, e) <= Pow(b, e)
  {
    if e > 0 {
      BaseMono(a, b, e - 1);
      MulMono(a, Pow(a, e - 1), Pow(b, e - 1));
      MulMono(Pow(b, e - 1), a, b);
    }
  }

  lemma NinetyThreeBits()
    ensures Pow(2, 93) <= Pow(10, 28)
  {
    hide Pow;
    Pow2Of32();
    PowAdd(2, 32, 32);
    PowAdd(2, 21, 8);
    PowAdd(2, 64, 29);
    TwentyOneBits();
    SixteenDigits();
    FourDigits();
    PowAdd(10, 4, 8);
    PowAdd(10, 4, 4);
    PowAdd(10, 16, 12);
  }

  /** 2^1025 has at most 309 digits, 2^1075 at most 324. */
  lemma DoubleRange()
    ensures Pow(2, 1025) <= Pow(10, 309) && Pow(2, 1075) <= Pow(10, 324)
  {
    hide Pow;
    NinetyThreeBits();
    PowPow(2, 93, 11);
    PowPow(10, 28, 11);
    BaseMono(Pow(2, 93), Pow(10, 28), 11);
    DoublePowers();
    PowMono(2, 52, 53);
    PowAdd(2, 1023, 2);
    PowAdd(2, 1023, 52);
    PowAdd(10, 308, 1);
    PowAdd(10, 308, 16);
    assert Pow(2, 2) <= Pow(10, 1) by {
      FourBelowTen();
    }
    ProductMono(Pow(2, 1023), Pow(10, 308), Pow(2, 2), Pow(10, 1));
    ProductMono(Pow(2, 1023), Pow(10, 308), Pow(2, 52), Pow(10, 16));
  }

  lemma FourBelowTen()
    ensures Pow(2, 2) <= Pow(10, 1)
  {
  }

  lemma ProductMono(a: nat, b: nat, c: nat, d: nat)
    requires a <= b && c <= d
    ensures a * c <= b * d
  {
    MulMono(a, c, d);
    MulMono(d, a, b);
  }

  lemma PowersCompare(d: nat, e: nat)
    requires Pow(2, d) <= Pow(10, e) && d > 0 && e > 0
    ensures RPow(2, d) <= RPow(10, e) && RPow(10, 0 - e) <= RPow(2, 0 - d)
  {
    hide Pow;
    Reciprocals(Pow(2, d) as real, Pow(10, e) as real);
  }

  lemma Reciprocals(a: real, b: real)
    requires 0.0 < a <= b
    ensures 1.0 / b <= 1.0 / a
  {
    Inverse(a);
    Inverse(b);
    RCancel(1.0 / b, 1.0 / a, b);
    RCancel(1.0, b / a, a);
  }

  lemma Doubles(e: int)
    ensures RPow(2, e + 1) == RPow(2, e) + RPow(2, e)
  {
    hide RPow;
    RPowAdd(2, e, 1);
    assert RPow(2, 1) == 2.0 by {
      RPowWhole(2, 1);
    }
  }

  /** Half a unit in the last place is at most half of the last bit's weight. */
  lemma HalfUlpSmall(e: int, bb: nat)
    requires e >= EMIN && 0 < bb <= 53
    ensures RPow(2, HalfUlp(e, bb, 53, EMIN)) <= RPow(2, e - 1)
  {
    hide RPow;
    var h := HalfUlp(e, bb, 53, EMIN);
    if h < e - 1 {
      RPowGrows(2, h, e - 1);
    }
  }

  lemma GapBounds(y: real, w: real, P: real, lo: real, hi: real, even: bool, half: real, top: real)
    requires Reads(y, w, lo, hi, even) && P <= w <= top
    requires P == half + half && lo <= half && hi <= half
    ensures half <= y <= top + half
  {
  }

  lemma ReadBounds(y: real, x: Double, bb: nat)
    requires 0 < bb <= 53 && 0 < x.Mantissa() < Pow(2, 53) && EMIN <= x.Exponent() && ReadsBack(y, x, bb)
    ensures RPow(2, x.Exponent() - 1) <= y <= RPow(2, x.Exponent() + 54)
  {
    hide *;
    var e, m := x.Exponent(), x.Mantissa();
    HalfUlpSmall(e, bb);
    GapsAre(x, bb, HalfUlp(e, bb, 53, EMIN));
    PlaceBounds(2, m, 53, e);
    Doubles(e - 1);
    Doubles(e + 53);
    RPowGrows(2, e - 1, e + 53);
    assert 53 + e == e + 53;
    ReadsBackIs(y, x, bb);
    GapBounds(y, Placed(2, m, e), RPow(2, e), GapDown(x, bb), GapUp(x, bb), x.lo % 2 == 0, RPow(2, e - 1),
      RPow(2, e + 53));
  }

  lemma ReadsBackIs(y: real, x: Double, bb: nat)
    requires bb > 0 && ReadsBack(y, x, bb)
    ensures Reads(y, Placed(2, x.Mantissa(), x.Exponent()), GapDown(x, bb), GapUp(x, bb), x.lo % 2 == 0)
  {
  }

  /** A power of two between 2^-1075 and 2^1025, against powers of ten. */
  lemma TenBounds(a: int, b: int)
    requires -1075 <= a && b <= 1025
    ensures RPow(10, -324) <= RPow(2, a) && RPow(2, b) <= RPow(10, 309)
  {
    hide RPow, Pow;
    DoubleRange();
    PowersCompare(1075, 324);
    PowersCompare(1025, 309);
    if a > -1075 {
      RPowGrows(2, -1075, a);
    }
    if b < 1025 {
      RPowGrows(2, b, 1025);
    }
  }

  lemma DigitsPlace(v: nat, n: nat, decpt: int)
    requires v < Pow(10, n) && RPow(10, -324) <= Decimal(v, decpt - n) <= RPow(10, 309)
    ensures v > 0 && -324 < decpt <= 309 + n
  {
    hide RPow, Pow, Decimal;
    if v == 0 {
      NothingDecimal(decpt - n);
      assert false;
    }
    DecimalBounds(v, n, decpt);
    if decpt < -324 {
      RPowGrows(10, decpt, -324);
    }
    if decpt - n > 309 {
      RPowGrows(10, 309, decpt - n);
    }
  }

  lemma DecimalBounds(v: nat, n: nat, decpt: int)
    requires 0 < v < Pow(10, n)
    ensures RPow(10, decpt - n) <= Decimal(v, decpt - n) < RPow(10, decpt)
  {
    hide RPow, Pow;
    PlaceBounds(10, v, n, decpt - n);
    assert Decimal(v, decpt - n) == Placed(10, v, decpt - n) && n + (decpt - n) == decpt;
  }

  lemma ShortestBits(x: Double, d: string, decpt: int, bb: nat)
    requires Shortest(x, d, decpt, bb) && x.Mantissa() < Pow(2, 53)
    ensures 0 < bb <= 53 && x.Mantissa() > 0
  {
    hide Pow, RPow, ShortestReading, NearestReading, Double.Mantissa, DigitsValue, HasBits;
    BitsFit(x.Mantissa(), bb, 53);
    NonZeroBits(x.Mantissa(), bb);
  }

  /** The decimal exponents of doubles. */
  lemma DoubleExponent(x: Double, d: string, decpt: int, bb: nat)
    requires Shortest(x, d, decpt, bb) && |d| < 18 && x.Biased() < 0x7ff && x.Mantissa() < Pow(2, 53)
    ensures AllDigits(d) && DigitsValue(d) > 0 && -324 < decpt <= 309 + |d|
  {
    ShortestReadsBack(x, d, decpt, bb);
    ShortestBits(x, d, decpt, bb);
    DigitsBelow(d);
    hide RPow, Pow, DigitsValue, Decimal, ReadsBack, Shortest, Double.Mantissa;
    ReadBounds(Decimal(DigitsValue(d), decpt - |d|), x, bb);
    TenBounds(x.Exponent() - 1, x.Exponent() + 54);
    DigitsPlace(DigitsValue(d), |d|, decpt);
  }

  /** The text of a double has at most 24 characters. */
  lemma TextFits(d: string, decpt: int, minus: bool)
    requires 0 < |d| < 18 && -324 < decpt <= 309 + |d|
    ensures |Text(d, decpt, minus)| <= 24
  {
    var x := if decpt < 1 then 1 - decpt else decpt - 1;
    hide Padded, Zeros;
    PaddedThree(x);
  }

  lemma PaddedThree(x: nat)
    requires x < 1000
    ensures |Padded(x, 2)| <= 3
  {
    PaddedIs(x, 2);
    assert Pow(10, 3) == 1000;
    NumeralLength(x, 3);
  }

  lemma NothingDecimal(e: int)
    ensures Decimal(0, e) == 0.0
  {
    hide RPow;
  }

  /** The text for a double into the first bufsize places of b. k is the estimate of the decimal exponent. */
  method FormatDouble(b: array<char>, x: Double, bufsize: nat, k: int, kCheck: bool, cache: PowerCache)
    returns (end: int, ghost d: string, ghost decpt: int, ghost bb: nat)
    requires cache.Valid() && b !in cache.Repr && bufsize <= b.Length
    requires x.Mantissa() > 0 ==> GoodEstimate(x.Mantissa(), x.Exponent(), k, kCheck)
    requires kCheck ==> k < 0 || k > 22
    modifies cache, b
    ensures cache.Valid() && fresh(cache.Repr - old(cache.Repr))
    ensures bufsize >= 25 ==> end >= 0
    ensures -1 <= end < b.Length && (end >= 0 ==> b[end] == '\0') && (bufsize < 10 ==> end == -1)
    ensures bufsize >= 10 && (x.IsNaN() || x.IsInfinite() || x.IsZero()) ==> end >= 0 && b[..end] == Special(x)
    ensures bufsize >= 10 && !x.IsNaN() && !x.IsInfinite() && !x.IsZero() ==>
      Shortest(x, d, decpt, bb) && |d| < 18 && x.Mantissa() < Pow(2, 53) &&
      var t := Text(d, decpt, x.Negative());
      (end >= 0 ==> b[..end] == t) && (end == -1 <==> bufsize < |d| + 6 || bufsize <= |t|) && |t| <= 24 &&
      Survives(|d|, decpt)
  {
    hide Pow, RPow, Prints, Shortest, GoodEstimate, DigitsValue, HasBits, PowerCache.Valid, Words.Value, Text;
    end, d, decpt, bb := -1, "", 0, 0;
    if bufsize < 10 {
      return;
    }
    if x.Biased() == 0x7ff {
      if x.hi % 0x10_0000 != 0 || x.lo != 0 {
        end := PutText(b, 0, "NaN");
        return;
      }
      var p := 0;
      if x.Negative() {
        p := Put(b, p, '-');
      }
      end := PutText(b, p, "Infinity");
      return;
    }
    if x.IsZero() {
      var p := 0;
      if x.Negative() {
        p := Put(b, p, '-');
      }
      end := PutText(b, p, "0");
      return;
    }
    var bits := new Word[] [x.lo, x.hi % 0x10_0000 + if x.Biased() > 0 then 0x10_0000 else 0];
    var s := new char[18];
    DoubleBits(x, bits[..]);
    assert bits[..2] == bits[..];
    var n, place, inex;
    n, place, inex, bb := Gdtoa.Gdtoa(bits, 53, EMIN, x.Exponent(), k, kCheck, cache, s);
    d, decpt := s[..n], place;
    assert s[..][..n] == s[..n];
    PrintsDouble(s[..], n, decpt, inex, x, bb);
    DoubleExponent(x, d, decpt, bb);
    TextFits(d, decpt, x.Negative());
    end := FormatDecimal(b, s, n, place, x.Negative(), bufsize);
  }
}
