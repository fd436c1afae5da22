/** What is printed for a number is determined by what is promised about it. */
module UniqueText {
  import opened Words
  import opened DigitLoop
  import opened DecimalMeaning
  import opened PrintedMeaning
  import opened SmallIntegers
  import opened Gdtoa
  import Scaling

  /** M has n digits. */
  ghost predicate HasDigits(M: nat, n: nat)
  {
    n > 0 && Pow(10, n - 1) <= M < Pow(10, n)
  }

  lemma DigitsAre(M: nat, n: nat)
    requires HasDigits(M, n)
    ensures n > 0 && 0 < Pow(10, n - 1) <= M < Pow(10, n)
  {
  }

  /** Where decimals of n digits lie. */
  lemma DigitsBetween(M: nat, e: int, n: nat)
    requires HasDigits(M, n)
    ensures RPow(10, e + n - 1) <= Decimal(M, e) < RPow(10, e + n)
    ensures Decimal(Pow(10, n - 1), e) == RPow(10, e + n - 1)
  {
    hide *;
    DigitsAre(M, n);
    FinerBelow(M, e, n, e + n);
    TopUnit(n - 1, e);
    assert e + (n - 1) == e + n - 1;
    DecimalMono(Pow(10, n - 1), M, e);
  }

  lemma TenOrder(d: int, e: int)
    requires d <= e
    ensures RPow(10, d) <= RPow(10, e)
  {
    hide *;
    if d < e {
      RPowGrows(10, d, e);
    }
  }

  /** Equal decimals with as many digits have the same digits and the same place. */
  lemma SameDecimal(M: nat, e: int, M': nat, e': int, n: nat)
    requires HasDigits(M, n) && HasDigits(M', n) && Decimal(M, e) == Decimal(M', e')
    ensures M == M' && e == e'
  {
    hide *;
    DigitsBetween(M, e, n);
    DigitsBetween(M', e', n);
    if e < e' {
      TenOrder(e + n, e' + n - 1);
      assert false;
    }
    if e' < e {
      TenOrder(e' + n, e + n - 1);
      assert false;
    }
    DecimalMono(M, M', e);
    DecimalMono(M', M, e);
  }

  /** What reads back on both sides of y does. */
  lemma ReadsInside(y: real, z: real, w: real, x: real, lo: real, hi: real, even: bool)
    requires Reads(y, x, lo, hi, even) && Reads(w, x, lo, hi, even) && y < z < w && x - y == w - x
    ensures Reads(z, x, lo, hi, even) && Distance(z, x) < Distance(y, x)
  {
  }

  /** Nothing as short lies between two equally near shortest decimals. */
  lemma NoneBetween(M: nat, e: int, n: nat, x: real, lo: real, hi: real, even: bool, w: real, M': nat, e': int)
    requires Reads(Decimal(M, e), x, lo, hi, even) && NearestReading(M, e, n, x, lo, hi, even) && M' < Pow(10, n)
    requires Reads(w, x, lo, hi, even) && x - Decimal(M, e) == w - x
    ensures !(Decimal(M, e) < Decimal(M', e') < w)
  {
    hide Pow, Decimal, Reads, Distance;
    if Decimal(M, e) < Decimal(M', e') < w {
      ReadsInside(Decimal(M, e), Decimal(M', e'), w, x, lo, hi, even);
    }
  }

  lemma NoneShorterReads(M: nat, e: int, n: nat, x: real, lo: real, hi: real, even: bool, M': nat, e': int)
    requires n > 0 && ShortestReading(M, e, n, x, lo, hi, even) && 0 < M' < Pow(10, n - 1)
    ensures !Reads(Decimal(M', e'), x, lo, hi, even)
  {
    hide Pow, Decimal, Reads;
  }

  lemma EvenIs(M: nat, e: int, x: real, lo: real, hi: real, even: bool, D: nat)
    requires EvenOnTie(M, e, x, lo, hi, even) && D != M && Reads(Decimal(D, e), x, lo, hi, even)
    requires Distance(Decimal(D, e), x) == Distance(Decimal(M, e), x)
    ensures M % 2 == 0
  {
    hide Decimal, Reads, Distance;
  }

  /** M 10^e is a decimal of n digits that a printer may print for x. */
  ghost predicate Best(M: nat, e: int, n: nat, x: real, lo: real, hi: real, even: bool)
  {
    HasDigits(M, n) && ShortestReading(M, e, n, x, lo, hi, even) && NearestReading(M, e, n, x, lo, hi, even) &&
    EvenOnTie(M, e, x, lo, hi, even)
  }

  lemma BestIs(M: nat, e: int, n: nat, x: real, lo: real, hi: real, even: bool)
    requires Best(M, e, n, x, lo, hi, even)
    ensures HasDigits(M, n) && n > 0 && Reads(Decimal(M, e), x, lo, hi, even)
    ensures ShortestReading(M, e, n, x, lo, hi, even) && NearestReading(M, e, n, x, lo, hi, even)
    ensures EvenOnTie(M, e, x, lo, hi, even)
  {
    hide HasDigits, Reads, NearestReading, EvenOnTie, Decimal;
    assert n > 0 by {
      DigitsAre(M, n);
    }
  }

  lemma SameLength(M: nat, e: int, n: nat, M': nat, e': int, n': nat, x: real, lo: real, hi: real, even: bool)
    requires Best(M, e, n, x, lo, hi, even) && Best(M', e', n', x, lo, hi, even)
    ensures n <= n'
  {
    hide *;
    BestIs(M, e, n, x, lo, hi, even);
    BestIs(M', e', n', x, lo, hi, even);
    DigitsAre(M', n');
    if n' < n {
      PowMono(10, n', n - 1);
      NoneShorterReads(M, e, n, x, lo, hi, even, M', e');
      assert false;
    }
  }

  /** Two that are equally near on both sides with the same place are neighbours, and one of them is odd. */
  lemma SamePlace(M: nat, e: int, n: nat, M': nat, x: real, lo: real, hi: real, even: bool)
    requires Best(M, e, n, x, lo, hi, even) && Best(M', e, n, x, lo, hi, even)
    ensures !(Decimal(M, e) < Decimal(M', e) && x - Decimal(M, e) == Decimal(M', e) - x)
  {
    hide *;
    BestIs(M, e, n, x, lo, hi, even);
    BestIs(M', e, n, x, lo, hi, even);
    DigitsAre(M', n);
    if Decimal(M, e) < Decimal(M', e) && x - Decimal(M, e) == Decimal(M', e) - x {
      DecimalMono(M, M', e);
      DecimalMono(M, M + 1, e);
      DecimalMono(M + 1, M', e);
      NoneBetween(M, e, n, x, lo, hi, even, Decimal(M', e), M + 1, e);
      MirrorDistance(Decimal(M, e), Decimal(M', e), x);
      EvenIs(M, e, x, lo, hi, even, M');
      EvenIs(M', e, x, lo, hi, even, M);
      assert false;
    }
  }

  lemma MirrorDistance(y: real, w: real, x: real)
    requires y < w && x - y == w - x
    ensures Distance(y, x) == Distance(w, x)
  {
  }

  /** The lower one has a finer place only below a power of ten of one digit, and then it ends in a nine. */
  lemma FinerPlace(M: nat, e: int, n: nat, M': nat, e': int, x: real, lo: real, hi: real, even: bool)
    requires Best(M, e, n, x, lo, hi, even) && Best(M', e', n, x, lo, hi, even) && e < e'
    requires x - Decimal(M, e) == Decimal(M', e') - x
    ensures n == 1 && M' == 1 && Decimal(M', e') == RPow(10, e')
  {
    hide *;
    BestIs(M, e, n, x, lo, hi, even);
    BestIs(M', e', n, x, lo, hi, even);
    DigitsAre(M', n);
    DigitsBetween(M, e, n);
    DigitsBetween(M', e', n);
    TenOrder(e + n, e' + n - 1);
    NoneBetween(M, e, n, x, lo, hi, even, Decimal(M', e'), Pow(10, n - 1), e');
    DecimalMono(Pow(10, n - 1), M', e');
    DecimalMono(M', Pow(10, n - 1), e');
    assert M' == Pow(10, n - 1);
    if n > 1 {
      TenthOf(n);
      TenUnits(Pow(10, n - 2), e');
      NoneShorterReads(M', e', n, x, lo, hi, even, Pow(10, n - 2), e' + 1);
      assert false;
    }
    OneDigit();
  }

  lemma TenthOf(n: nat)
    requires n > 1
    ensures Pow(10, n - 1) == 10 * Pow(10, n - 2) && 0 < Pow(10, n - 2) < Pow(10, n - 1)
  {
  }

  lemma OneDigit()
    ensures Pow(10, 0) == 1 && Pow(10, 1) == 10
  {
  }

  /** Not even there: 9 is odd. */
  lemma NoFinerPlace(M: nat, e: int, n: nat, M': nat, e': int, x: real, lo: real, hi: real, even: bool)
    requires Best(M, e, n, x, lo, hi, even) && Best(M', e', n, x, lo, hi, even) && e < e'
    ensures x - Decimal(M, e) != Decimal(M', e') - x
  {
    hide *;
    if x - Decimal(M, e) == Decimal(M', e') - x {
      FinerPlace(M, e, n, M', e', x, lo, hi, even);
      OneDigit();
      BestIs(M, e, n, x, lo, hi, even);
      BestIs(M', e', n, x, lo, hi, even);
      DigitsAre(M, n);
      DigitsBetween(M, e, n);
      TenOrder(e + 1, e');
      TopUnit(1, e);
      DecimalMono(M, M + 1, e);
      DecimalMono(M + 1, 10, e);
      if M < 9 {
        NoneBetween(M, e, n, x, lo, hi, even, Decimal(M', e'), M + 1, e);
      }
      NoneBetween(M, e, n, x, lo, hi, even, Decimal(M', e'), 1, e + 1);
      MirrorDistance(Decimal(M, e), Decimal(M', e'), x);
      EvenIs(M, e, x, lo, hi, even, 10);
      OddNine(M);
      assert false;
    }
  }

  lemma OddNine(M: nat)
    requires M % 2 == 0
    ensures M != 9
  {
  }

  lemma EquallyNear(M: nat, e: int, n: nat, M': nat, e': int, x: real, lo: real, hi: real, even: bool)
    requires Best(M, e, n, x, lo, hi, even) && Best(M', e', n, x, lo, hi, even)
    ensures Distance(Decimal(M, e), x) <= Distance(Decimal(M', e'), x)
  {
    hide HasDigits, ShortestReading, EvenOnTie, Decimal, Reads, Distance, Pow;
    BestIs(M', e', n, x, lo, hi, even);
    DigitsAre(M', n);
  }

  /** There is one shortest decimal that is nearest and, in a tie, even. */
  lemma OneBest(M: nat, e: int, n: nat, M': nat, e': int, n': nat, x: real, lo: real, hi: real, even: bool)
    requires Best(M, e, n, x, lo, hi, even) && Best(M', e', n', x, lo, hi, even)
    ensures M == M' && e == e' && n == n'
  {
    hide *;
    SameLength(M, e, n, M', e', n', x, lo, hi, even);
    SameLength(M', e', n', M, e, n, x, lo, hi, even);
    EquallyNear(M, e, n, M', e', x, lo, hi, even);
    EquallyNear(M', e', n, M, e, x, lo, hi, even);
    SameSide(Decimal(M, e), Decimal(M', e'), x);
    NotBelow(M, e, n, M', e', x, lo, hi, even);
    NotBelow(M', e', n, M, e, x, lo, hi, even);
    BestIs(M, e, n, x, lo, hi, even);
    BestIs(M', e', n, x, lo, hi, even);
    SameDecimal(M, e, M', e', n);
  }

  lemma SameSide(y: real, w: real, x: real)
    requires Distance(y, x) == Distance(w, x)
    ensures y < w ==> x - y == w - x
    ensures w < y ==> x - w == y - x
  {
  }

  lemma NotBelow(M: nat, e: int, n: nat, M': nat, e': int, x: real, lo: real, hi: real, even: bool)
    requires Best(M, e, n, x, lo, hi, even) && Best(M', e', n, x, lo, hi, even)
    requires Decimal(M, e) < Decimal(M', e') ==> x - Decimal(M, e) == Decimal(M', e') - x
    ensures Decimal(M, e) >= Decimal(M', e')
  {
    hide *;
    if Decimal(M, e) < Decimal(M', e') {
      if e == e' {
        SamePlace(M, e, n, M', x, lo, hi, even);
      } else if e < e' {
        NoFinerPlace(M, e, n, M', e', x, lo, hi, even);
      } else {
        BestIs(M, e, n, x, lo, hi, even);
        BestIs(M', e', n, x, lo, hi, even);
        DigitsBetween(M, e, n);
        DigitsBetween(M', e', n);
        TenOrder(e' + n, e + n - 1);
      }
      assert false;
    }
  }

  /** The flag is determined by the number, its gap and the decimal. */
  lemma OneFlag(inex: Inexact, inex': Inexact, x: real, y: real, misnamed: bool)
    requires FlagSays(inex, x, y, misnamed) && FlagSays(inex', x, y, misnamed)
    ensures inex == inex'
  {
  }

  lemma WellIsBest(M: nat, e: int, n: nat, x: real, lo: real, hi: real, even: bool, inex: Inexact)
    requires n > 0 && PrintsWell(M, e, n, x, lo, hi, even, inex) && Pow(10, n - 1) <= M < Pow(10, n)
    ensures Best(M, e, n, x, lo, hi, even) && FlagSays(inex, x, Decimal(M, e), Misnamed(x, lo, hi, even, e))
  {
    hide Pow, ShortestReading, NearestReading, EvenOnTie, FlagSays, Decimal, Misnamed;
  }

  lemma ExactIsOne(M: nat, e: int, n: nat, M': nat, e': int, n': nat, x: real, inex: Inexact, inex': Inexact)
    requires n > 0 && n' > 0 && PrintsExactly(M, e, n, x, inex) && PrintsExactly(M', e', n', x, inex')
    ensures M == M' && e == e' && n == n' && inex == inex'
  {
    hide Decimal, Pow;
    if e < e' {
      TrailingZero(M, e, M', e');
      assert false;
    }
    if e' < e {
      TrailingZero(M', e', M, e);
      assert false;
    }
    DecimalMono(M, M', e);
    DecimalMono(M', M, e);
    if n < n' {
      PowMono(10, n, n' - 1);
    } else if n' < n {
      PowMono(10, n', n - 1);
    }
  }

  lemma TrailingZero(M: nat, e: int, M': nat, e': int)
    requires e < e' && Decimal(M, e) == Decimal(M', e')
    ensures M % 10 == 0
  {
    hide *;
    var d: nat := e' - e;
    DecimalShift(M', d, e);
    assert e + d == e';
    DecimalMono(M, M' * Pow(10, d), e);
    DecimalMono(M' * Pow(10, d), M, e);
    TenDivides(M', d);
  }

  lemma TenDivides(M: nat, d: nat)
    requires d > 0
    ensures M * Pow(10, d) % 10 == 0
  {
    var p := Pow(10, d - 1);
    MulAssoc(M, 10, p);
    MulAssoc(10, M, p);
    Tenfold(M * p);
  }

  lemma Tenfold(x: nat)
    ensures 10 * x % 10 == 0
  {
  }

  /** For every number of every format there is one text, one place of its point and one flag. */
  lemma OneText(M: nat, e: int, n: nat, inex: Inexact, M': nat, e': int, n': nat, inex': Inexact,
                v: nat, bb: nat, be: int, nbits: nat, emin: int, even: bool)
    requires n > 0 && n' > 0 && bb > 0
    requires Prints(M, e, n, inex, v, bb, be, nbits, emin, even)
    requires Prints(M', e', n', inex', v, bb, be, nbits, emin, even)
    ensures M == M' && e == e' && n == n' && inex == inex'
  {
    var x, hi := Placed(2, v, be), RPow(2, Scaling.HalfUlp(be, bb, nbits, emin));
    var lo := LowerGap(hi, LowerCloser(v, bb, be, emin));
    hide Pow, RPow, Placed, SmallInteger, PrintsExactly, PrintsWell, LowerGap, LowerCloser, Scaling.HalfUlp, Best;
    hide FlagSays, Misnamed;
    if SmallInteger(x) {
      ExactIsOne(M, e, n, M', e', n', x, inex, inex');
    } else {
      WellIsBest(M, e, n, x, lo, hi, even, inex);
      WellIsBest(M', e', n', x, lo, hi, even, inex');
      OneBest(M, e, n, M', e', n', x, lo, hi, even);
      OneFlag(inex, inex', x, Decimal(M, e), Misnamed(x, lo, hi, even, e));
    }
  }
}
