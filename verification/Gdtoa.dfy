/** gdtoa in mode 0, rounding to nearest: the shortest decimal that reads back as v 2^be, and of its length the
    nearest, from the bits of v to the text; whole numbers below 10^15 as they are. */
module Gdtoa {
  import opened Words
  import opened Bigints
  import opened RightShifts
  import opened BitCounts
  import opened PowersOfFive
  import opened ShortestDecimal
  import opened Digits
  import opened DigitLoop
  import opened Mode0
  import opened Scaling
  import opened SetUp
  import opened DecimalMeaning
  import opened PrintedMeaning
  import opened SmallIntegers
  import BinaryGaps

  lemma HasBitsUnshift(o: nat, k: nat, n: nat)
    requires HasBits(o * Pow(2, k), n) && o > 0
    ensures n > k && HasBits(o, n - k)
  {
    hide Pow;
    if n <= k {
      PowMono(2, n, k);
      OrderScales(1, o, Pow(2, k));
    } else {
      PowAdd(2, n - k, k);
      PowAdd(2, n - k - 1, k);
      OrderScales(o, Pow(2, n - k), Pow(2, k));
      OrderScales(Pow(2, n - k - 1), o, Pow(2, k));
    }
  }

  /** Shifting zero bits out of v and adding them to the exponent does not change the number. */
  lemma SameNumber(o: nat, i: nat, e: int, k: int)
    ensures Num(o * Pow(2, i), e, k) * Den(e + i, k) == Num(o, e + i, k) * Den(e, k)
  {
    var v, q := o * Pow(2, i), Plus(-k) + Plus(k);
    var a, a' := Plus(e) + Plus(-k) + Plus(-(e + i)) + Plus(k), Plus(e + i) + Plus(-k) + Plus(-e) + Plus(k);
    assert i + a == a';
    SameScaled(v, o, i, e, k, a, a', q);
  }

  lemma SameScaled(v: nat, o: nat, i: nat, e: int, k: int, a: nat, a': nat, q: nat)
    requires v == o * Pow(2, i) && i + a == a' && q == Plus(-k) + Plus(k)
    requires a == Plus(e) + Plus(-k) + Plus(-(e + i)) + Plus(k)
    requires a' == Plus(e + i) + Plus(-k) + Plus(-e) + Plus(k)
    ensures Num(v, e, k) * Den(e + i, k) == Num(o, e + i, k) * Den(e, k)
  {
    hide Pow, Scaled, Num, Den;
    NumTimesDen(v, e, e + i, k);
    NumTimesDen(o, e + i, e, k);
    ShiftIn(o, i, a, q);
  }

  lemma NumTimesDen(v: nat, e: int, e': int, k: int)
    ensures Num(v, e, k) * Den(e', k) == Scaled(v, Plus(e) + Plus(-k) + Plus(-e') + Plus(k), Plus(-k) + Plus(k))
  {
    NumScaled(v, e, k);
    DenScaled(e', k);
    ScaledMul(v, Plus(e) + Plus(-k), Plus(-k), Plus(-e') + Plus(k), Plus(k));
  }

  lemma ShiftIn(o: nat, i: nat, p: nat, q: nat)
    ensures Scaled(o * Pow(2, i), p, q) == Scaled(o, i + p, q)
  {
    PowAdd(2, i, p);
    hide Pow;
    MulAssoc(o, Pow(2, i), Pow(2, p) * Pow(5, q));
    MulAssoc(Pow(2, i), Pow(2, p), Pow(5, q));
  }

  lemma SameEstimate(o: nat, i: nat, e: int, k: int, kCheck: bool)
    requires GoodEstimate(o * Pow(2, i), e, k, kCheck)
    ensures GoodEstimate(o, e + i, k, kCheck)
  {
    SameNumber(o, i, e, k);
    hide Num, Den;
    CrossOrder(Num(o * Pow(2, i), e, k), Den(e, k), Num(o, e + i, k), Den(e + i, k));
  }

  lemma CrossOrder(n: nat, d: nat, n': nat, d': nat)
    requires n * d' == n' * d && d > 0 && d' > 0
    ensures n < 10 * d <==> n' < 10 * d'
    ensures d <= 10 * n <==> d' <= 10 * n'
    ensures d <= n <==> d' <= n'
  {
    OrderScales(n, 10 * d, d');
    OrderScales(n', 10 * d', d);
    OrderScales(d, 10 * n, d');
    OrderScales(d', 10 * n', d);
    OrderScales(d, n, d');
    OrderScales(d', n', d);
    Tens(d, d', n, n');
  }

  lemma Tens(d: nat, d': nat, n: nat, n': nat)
    ensures (10 * d) * d' == (10 * d') * d
    ensures n * d' == n' * d ==> (10 * n) * d' == (10 * n') * d
  {
  }

  lemma SameRatio(x: nat, S: nat, o: nat, i: nat, e: int, k: int)
    requires Ratio(x, S, o, e + i, k)
    ensures Ratio(x, S, o * Pow(2, i), e, k)
  {
    SameNumber(o, i, e, k);
    hide Num, Den;
    CrossRatio(x, S, Num(o * Pow(2, i), e, k), Den(e, k), Num(o, e + i, k), Den(e + i, k));
  }

  lemma CrossRatio(x: nat, S: nat, n: nat, d: nat, n': nat, d': nat)
    requires x * d' == S * n' && n * d' == n' * d && d' > 0
    ensures x * d == S * n
  {
    calc {
      (x * d) * d';
      { MulSwap(x, d, 1, d'); MulSwap(x, d', 1, d); }
      (x * d') * d;
      (S * n') * d;
      { MulAssoc(S, n', d); }
      S * (n' * d);
      S * (n * d');
      { MulAssoc(S, n, d'); }
      (S * n) * d';
    }
    CancelFactor(x * d, S * n, d');
  }

  lemma CancelFactor(a: nat, b: nat, c: nat)
    requires c > 0 && a * c == b * c
    ensures a == b
  {
    OrderScales(a, b, c);
    OrderScales(b, a, c);
  }

  /** The odd part of the number in the bits: the trailing zeros go to the exponent. */
  method OddPart(bits: array<Word>, nbits: nat, be0: int) returns (b: Bigint, be: int, bbits: nat, ghost i: nat)
    requires 0 < nbits && (nbits - 1) / 32 < bits.Length
    ensures fresh(b) && fresh(b.x) && b.Ok() && be == be0 + i
    ensures var v := Value(bits[..(nbits - 1) / 32 + 1]);
      if v == 0 then
        b.wds == 0 && b.Value() == 0
      else
        b.wds > 0 && v == b.Value() * Pow(2, i) && HasBits(v, bbits + i) && HasBits(b.Value(), bbits) &&
        b.Value() % 2 == 1
  {
    hide Words.Value, Weight, Pow, HasBits;
    b, bbits := BitsToB(bits, nbits);
    ghost var v, n := b.Value(), bbits;
    be := be0;
    var z := Trailz(b);
    i := z;
    if v == 0 {
      if b.wds > 0 {
        TopWordWeighs(b.x[..b.wds]);
      }
      i := 0;
    } else {
      OddQuotient(v, z, n);
    }
    if z != 0 {
      RShift(b, z);
      be := be + z;
      bbits := bbits - z;
    }
    if v != 0 {
      NonEmpty(b);
    }
  }

  lemma OddQuotient(v: nat, z: nat, n: nat)
    requires v > 0 && OddTimes(v, z) && HasBits(v, n)
    ensures v / Pow(2, z) > 0 && v == v / Pow(2, z) * Pow(2, z)
    ensures n > z && HasBits(v / Pow(2, z), n - z) && v / Pow(2, z) % 2 == 1
    ensures z == 0 ==> v / Pow(2, z) == v
  {
    var o: nat :| o % 2 == 1 && v == o * Pow(2, z);
    QuotientIs(v, Pow(2, z), o, 0);
    HasBitsUnshift(o, z, n);
  }

  /** The gap below the number: half the gap above it when the mantissa is a power of two above the smallest. */
  function LowerGap(hi: real, spec: bool): real
  {
    if spec then hi / 2.0 else hi
  }

  /** What the set-up prepared, in real numbers: the number o 2^(e+i) = v 2^e and its gaps. */
  lemma PreparedStands(g: Gap, k: int, v: nat, o: nat, i: nat, e: int, he: int, spec: bool)
    requires v == o * Pow(2, i)
    requires Prepared(g.N, g.S, g.lo, g.hi, k, o, e + i, he, spec)
    ensures var hi := RPow(2, he);
      GapStands(g, k, v as real * RPow(2, e), LowerGap(hi, spec), hi)
  {
    hide Pow, RPow, Ratio;
    var K, S, h := RPow(10, k), g.S as real, RPow(2, he);
    assert (g.N as real) * K == S * (v as real * RPow(2, e)) by {
      SameRatio(g.N, g.S, o, i, e, k);
      RatioMeans(g.N, g.S, v, e, k);
    }
    assert (g.hi as real) * K == S * h by {
      RatioMeans(g.hi, g.S, 1, he, k);
      OneTimes(h);
    }
    assert (g.lo as real) * K == S * LowerGap(h, spec) by {
      HalfGap(g.lo, g.hi, S, K, h, spec);
    }
  }

  lemma OneTimes(x: real)
    ensures (1 as real) * x == x
  {
  }

  lemma HalfGap(lo: nat, hi: nat, S: real, K: real, h: real, spec: bool)
    requires (hi as real) * K == S * h && hi == if spec then 2 * lo else lo
    ensures (lo as real) * K == S * LowerGap(h, spec)
  {
    if spec {
      assert hi as real == 2.0 * (lo as real);
      assert S * h == 2.0 * (S * (h / 2.0)) by {
        RAssoc(2.0, S, h / 2.0);
        RAssoc(S, 2.0, h / 2.0);
      }
    }
  }

  lemma BitsFit(v: nat, bb: nat, nbits: nat)
    requires HasBits(v, bb) && v < Pow(2, nbits)
    ensures bb <= nbits
  {
    if nbits < bb {
      PowMono(2, nbits, bb - 1);
    }
  }

  /** A single bit is left of the odd part exactly when v is a power of two. */
  lemma SingleBit(v: nat, o: nat, i: nat, bb: nat)
    requires v == o * Pow(2, i) && HasBits(o, bb) && HasBits(v, bb + i)
    ensures bb == 1 <==> o == 1
    ensures bb == 1 ==> v == Pow(2, bb + i - 1)
    ensures v == Pow(2, bb + i - 1) && o % 2 == 1 ==> bb == 1
  {
    if bb > 1 {
      PowMono(2, 1, bb - 1);
      if v == Pow(2, bb + i - 1) {
        PowAdd(2, bb - 1, i);
        CancelFactor(o, Pow(2, bb - 1), Pow(2, i));
        assert Pow(2, bb - 1) == 2 * Pow(2, bb - 2);
      }
    }
  }

  /** A whole number of at most fifteen digits. */
  ghost predicate SmallInteger(x: real)
  {
    x.Floor as real == x && 0.0 <= x < Pow(10, 15) as real
  }

  /** Whether the mantissa v is the least of its exponent, so that the numbers below are closer. */
  ghost predicate LowerCloser(v: nat, bb: nat, be0: int, emin: int)
    requires bb > 0
  {
    v == Pow(2, bb - 1) && be0 > emin + 1
  }

  /** M 10^e, of n digits, is printed with its flag for v 2^be0, bb bits wide in v, in a format of nbits bits and
      least exponent emin. */
  ghost predicate Prints(M: nat, e: int, n: nat, inex: Inexact, v: nat, bb: nat, be0: int, nbits: nat, emin: int,
                         even: bool)
    requires n > 0 && bb > 0
  {
    Pow(10, n - 1) <= M < Pow(10, n) &&
    var x, hi := Placed(2, v, be0), RPow(2, HalfUlp(be0, bb, nbits, emin));
    if SmallInteger(x) then
      PrintsExactly(M, e, n, x, inex)
    else
      PrintsWell(M, e, n, x, LowerGap(hi, LowerCloser(v, bb, be0, emin)), hi, even, inex)
  }

  /** Half a unit in the last place is less than the last bit that is set. */
  lemma HalfUlpBelow(be: int, bbits: nat, nbits: nat, emin: int)
    requires bbits <= nbits && emin <= be
    ensures HalfUlp(be, bbits, nbits, emin) < be
  {
  }

  lemma GapBelowNumber(v: nat, o: nat, i: nat, be0: int, he: int, spec: bool)
    requires v == o * Pow(2, i) && o > 0 && he < be0 + i
    ensures RPow(2, he) > 0.0 && LowerGap(RPow(2, he), spec) < Placed(2, v, be0)
  {
    hide *;
    var hi, p := RPow(2, he), RPow(2, be0 + i);
    RPowGrows(2, he, be0 + i);
    PlacedOdd(v, o, i, be0);
    NoLess(o, p, Placed(2, v, be0));
    LowerNotMore(hi, spec);
  }

  lemma NoLess(o: nat, p: real, x: real)
    requires o > 0 && p > 0.0 && x == o as real * p
    ensures p <= x
  {
    RCancel(1.0, o as real, p);
  }

  lemma LowerNotMore(hi: real, spec: bool)
    requires hi > 0.0
    ensures 0.0 < LowerGap(hi, spec) <= hi
  {
  }

  lemma PlacedOdd(v: nat, o: nat, i: nat, be0: int)
    requires v == o * Pow(2, i)
    ensures Placed(2, v, be0) == o as real * RPow(2, be0 + i)
  {
    hide Pow, RPow;
    RPowAdd(2, i, be0);
    RPowWhole(2, i);
    RealMul(o, Pow(2, i));
    RAssoc(o as real, RPow(2, i), RPow(2, be0));
  }

  lemma PrintedRight(s: seq<char>, n: nat, decpt: int, k: int, inex: Inexact, g: Gap,
                     v: nat, o: nat, i: nat, bb: nat, be0: int, nbits: nat, emin: int)
    requires v == o * Pow(2, i) && o % 2 == 1 && HasBits(o, bb) && HasBits(v, bb + i) && 0 < bb <= nbits && emin <= be0
    requires Prepared(g.N, g.S, g.lo, g.hi, k, o, be0 + i, HalfUlp(be0 + i, bb, nbits, emin), bb == 1 && be0 > emin + 1)
    requires |s| > 0 && s[0] != '0'
    requires g.Valid() && Written(s, n, decpt - 1 - k, inex, g) && !SmallInteger(Placed(2, v, be0))
    ensures 0 < n <= |s| && AllDigits(s[..n])
    ensures Prints(DigitsValue(s[..n]), decpt - n, n, inex, v, bb + i, be0, nbits, emin, g.even)
  {
    hide *;
    var he, spec := HalfUlp(be0 + i, bb, nbits, emin), bb == 1 && be0 > emin + 1;
    assert HalfUlp(be0, bb + i, nbits, emin) == he by {
      HalfUlpShift(be0, i, bb, nbits, emin);
    }
    var x, hi := Placed(2, v, be0), RPow(2, he);
    HalfUlpBelow(be0 + i, bb, nbits, emin);
    GapBelowNumber(v, o, i, be0, he, spec);
    PreparedStands(g, k, v, o, i, be0, he, spec);
    assert v as real * RPow(2, be0) == x by {
      PlacedTwo(v, be0);
    }
    assert spec == LowerCloser(v, bb + i, be0, emin) by {
      SpareBit(v, o, i, bb, be0, emin);
    }
    WrittenWell(s, n, decpt - 1 - k, inex, g, k, x, LowerGap(hi, spec), hi);
    assert k + (decpt - 1 - k) + 1 - n == decpt - n;
    DigitsBelow(s[..n]);
    FirstDigitCounts(s[..n]);
    WellPrints(DigitsValue(s[..n]), decpt - n, n, inex, v, bb + i, be0, nbits, emin, g.even, he, spec);
  }

  lemma PlacedTwo(v: nat, e: int)
    ensures v as real * RPow(2, e) == Placed(2, v, e)
  {
    hide RPow;
  }

  lemma HalfUlpShift(be0: int, i: nat, bb: nat, nbits: nat, emin: int)
    ensures HalfUlp(be0, bb + i, nbits, emin) == HalfUlp(be0 + i, bb, nbits, emin)
  {
  }

  lemma SpareBit(v: nat, o: nat, i: nat, bb: nat, be0: int, emin: int)
    requires v == o * Pow(2, i) && o % 2 == 1 && HasBits(o, bb) && HasBits(v, bb + i) && bb > 0
    ensures LowerCloser(v, bb + i, be0, emin) == (bb == 1 && be0 > emin + 1)
  {
    hide Pow, HasBits;
    SingleBit(v, o, i, bb);
  }

  lemma WellPrints(M: nat, e: int, n: nat, inex: Inexact, v: nat, bb: nat, be0: int, nbits: nat, emin: int, even: bool,
                   he: int, spec: bool)
    requires n > 0 && bb > 0 && he == HalfUlp(be0, bb, nbits, emin) && spec == LowerCloser(v, bb, be0, emin)
    requires !SmallInteger(Placed(2, v, be0)) && Pow(10, n - 1) <= M < Pow(10, n)
    requires PrintsWell(M, e, n, Placed(2, v, be0), LowerGap(RPow(2, he), spec), RPow(2, he), even, inex)
    ensures Prints(M, e, n, inex, v, bb, be0, nbits, emin, even)
  {
    hide Pow, RPow, PrintsWell, SmallInteger, LowerGap, LowerCloser, Placed, HalfUlp;
  }

  // ----- small integers -----

  /** Which estimates whole numbers have, and that those of at most fourteen are exact. */
  lemma WholeEstimate(o: nat, be: nat, m: nat, k: int, kCheck: bool)
    requires m == o * Pow(2, be) && o > 0 && GoodEstimate(o, be, k, kCheck) && (kCheck ==> k < 0 || k > 22)
    ensures k >= 0
    ensures k <= 14 ==> Pow(10, k) <= m < Pow(10, k + 1)
    ensures k > 14 ==> Pow(10, 15) <= m
  {
    hide Pow;
    WholeParts(o, be, m, k);
    MulPos(o, Pow(2, be));
    hide Num, Den;
    if k < 0 {
      NoneBelowOne(m, -k);
    }
    PowUp(k);
    if k > 14 {
      PowUp(k - 1);
      PowMono(10, 15, if kCheck then k - 1 else k);
    }
  }

  lemma NoneBelowOne(m: nat, j: nat)
    requires m > 0 && j > 0
    ensures m * Pow(10, j) >= 10
  {
    PowMono(10, 1, j);
    hide Pow;
    MulMono(Pow(10, j), 1, m);
  }

  lemma WholeParts(o: nat, be: nat, m: nat, k: int)
    requires m == o * Pow(2, be)
    ensures Num(o, be, k) == m * Pow(10, Plus(-k)) && Den(be, k) == Pow(10, Plus(k))
    ensures k >= 0 ==> Num(o, be, k) == m && Den(be, k) == Pow(10, k)
    ensures k < 0 ==> Den(be, k) == 1
  {
    assert Plus(0 - be) == 0 && Plus(be) == be;
  }

  /** An odd number over a power of two is no whole number. */
  lemma OddOverTwos(o: nat, e: nat, m: nat)
    requires o % 2 == 1 && e > 0
    ensures o as real * RPow(2, 0 - e) != m as real
  {
    hide Pow, RPow;
    if o as real * RPow(2, 0 - e) == m as real {
      RPowInverse(2, e);
      RAssoc(o as real, RPow(2, 0 - e), Pow(2, e) as real);
      RealMul(m, Pow(2, e));
      assert o == m * Pow(2, e);
      EvenMultiple(m, e);
      assert false;
    }
  }

  lemma EvenMultiple(m: nat, e: nat)
    requires e > 0
    ensures m * Pow(2, e) % 2 == 0
  {
    MulAssoc(2, m, Pow(2, e - 1));
    MulAssoc(m, 2, Pow(2, e - 1));
    Double(m * Pow(2, e - 1));
  }

  lemma Double(x: nat)
    ensures (2 * x) % 2 == 0
  {
  }

  lemma NotWhole(v: nat, o: nat, i: nat, be0: int)
    requires v == o * Pow(2, i) && o % 2 == 1 && be0 + i < 0
    ensures !SmallInteger(Placed(2, v, be0))
  {
    hide *;
    var x := Placed(2, v, be0);
    PlacedOdd(v, o, i, be0);
    if SmallInteger(x) {
      FloorIs(x);
      OddOverTwos(o, -(be0 + i), x.Floor);
    }
  }

  lemma FloorIs(x: real)
    requires SmallInteger(x)
    ensures x.Floor as real == x && x.Floor >= 0
  {
  }

  lemma SmallWhole(x: real, m: nat)
    requires x == m as real
    ensures SmallInteger(x) <==> m < Pow(10, 15)
  {
    hide Pow;
    assert x.Floor == m;
  }

  lemma WholePlaced(v: nat, o: nat, i: nat, be0: int)
    requires v == o * Pow(2, i) && be0 + i >= 0
    ensures Placed(2, v, be0) == (o * Pow(2, be0 + i)) as real
  {
    hide *;
    PlacedOdd(v, o, i, be0);
    RPowWhole(2, be0 + i);
    RealMul(o, Pow(2, be0 + i));
  }

  /** The test for the quick way asks for a whole number below 10^15. */
  lemma QuickWay(v: nat, o: nat, i: nat, be0: int, k: int, kCheck: bool)
    requires v == o * Pow(2, i) && o % 2 == 1 && GoodEstimate(o, be0 + i, k, kCheck) && (kCheck ==> k < 0 || k > 22)
    ensures be0 + i >= 0 && k <= 14 <==> SmallInteger(Placed(2, v, be0))
    ensures be0 + i >= 0 && k <= 14 ==>
      k >= 0 && Pow(10, k) <= o * Pow(2, be0 + i) < Pow(10, k + 1) &&
      Placed(2, v, be0) == (o * Pow(2, be0 + i)) as real
  {
    hide *;
    if be0 + i < 0 {
      NotWhole(v, o, i, be0);
    } else {
      var m := o * Pow(2, be0 + i);
      WholePlaced(v, o, i, be0);
      SmallWhole(Placed(2, v, be0), m);
      WholeEstimate(o, be0 + i, m, k, kCheck);
      if k <= 14 {
        PowMono(10, k + 1, 15);
      }
    }
  }

  lemma SmallPrints(M: nat, k: nat, n: nat, v: nat, m: nat, bb: nat, be0: int, nbits: nat, emin: int, even: bool)
    requires 0 < n <= k + 1 && bb > 0 && Placed(2, v, be0) == m as real && SmallInteger(Placed(2, v, be0))
    requires Pow(10, k) <= m < Pow(10, k + 1) && m == M * Pow(10, k + 1 - n) && M % 10 != 0
    ensures Prints(M, k + 1 - n, n, Exact, v, bb, be0, nbits, emin, even)
  {
    hide RPow, SmallInteger, LowerGap, LowerCloser, Placed, HalfUlp, PrintsWell;
    DigitCount(M, k, n, m);
    DecimalShift(M, k + 1 - n, 0);
    hide Pow;
    assert Decimal(m, 0) == m as real by {
      RPowWhole(10, 0);
      assert Pow(10, 0) == 1;
    }
  }

  lemma DigitCount(M: nat, k: nat, n: nat, m: nat)
    requires 0 < n <= k + 1 && Pow(10, k) <= m < Pow(10, k + 1) && m == M * Pow(10, k + 1 - n)
    ensures Pow(10, n - 1) <= M < Pow(10, n)
  {
    var p := Pow(10, k + 1 - n);
    PowAdd(10, n - 1, k + 1 - n);
    PowAdd(10, n, k + 1 - n);
    hide Pow;
    OrderScales(Pow(10, n - 1), M, p);
    OrderScales(M, Pow(10, n), p);
  }

  /** What Prepare gives is what the digit loop asks for. */
  lemma PreparedFits(g: Gap, k: int, o: nat, be: int, he: int, spec: bool, nbits: nat, room: nat)
    requires Prepared(g.N, g.S, g.lo, g.hi, k, o, be, he, spec)
    requires g.S <= 2 * (g.lo * Pow(2, nbits)) && room >= 2 && Pow(2, nbits) < Pow(10, room - 2)
    ensures g.Valid() && g.S < 2 * (g.lo * Pow(10, room - 2))
  {
    hide Pow, Ratio;
    OrderScales(Pow(2, nbits), Pow(10, room - 2), g.lo);
  }

  lemma WrittenIs(s: seq<char>, n: nat, grown: int, inex: Inexact, g: Gap)
    requires g.S > 0 && Written(s, n, grown, inex, g)
    ensures 0 < n < |s| && s[n] == '\0' && AllDigits(s[..n]) && s[0] != '0'
  {
  }

  /** The part of gdtoa after the trailing zeros are gone: set-up and digit loop. */
  method PrintOdd(b0: Bigint, be: int, be0: int, bbits: nat, nbits: nat, emin: int, k0: int, kCheck: bool, even: bool,
                  cache: PowerCache, s: array<char>)
    returns (n: nat, decpt: int, inex: Inexact, ghost g: Gap, ghost k: int)
    requires cache.Valid() && b0.Ok() && HasBits(b0.Value(), bbits) && bbits <= nbits
    requires emin <= be0 <= be && GoodEstimate(b0.Value(), be, k0, kCheck)
    requires s !in cache.Repr && s.Length >= 2 && Pow(2, nbits) < Pow(10, s.Length - 2)
    modifies cache, s
    ensures cache.Valid() && fresh(cache.Repr - old(cache.Repr))
    ensures g.even == even && g.Valid()
    ensures Prepared(g.N, g.S, g.lo, g.hi, k, old(b0.Value()), be, HalfUlp(be, bbits, nbits, emin),
                     bbits == 1 && be0 > emin + 1)
    ensures Written(s[..], n, decpt - 1 - k, inex, g)
  {
    hide Words.Value, Pow, HasBits, GoodEstimate, Prepared, Written, HalfUlp, PowerCache.Valid, Binary;
    ghost var o, he, spec := b0.Value(), HalfUlp(be, bbits, nbits, emin), bbits == 1 && be0 > emin + 1;
    var b, S, mlo, mhi, k1 := Prepare(b0, be, be0, bbits, nbits, emin, k0, kCheck, cache);
    k := k1;
    g := Gap(b.Value(), S.Value(), mlo.Value(), mhi.Value(), even);
    PreparedFits(g, k, o, be, he, spec, nbits, s.Length);
    HalfUlpBelow(be, bbits, nbits, emin);
    BinaryGaps.IsBinary(g, k, o, be, he, spec);
    n, k1, inex := GenerateDigits(b, S, mlo, mhi, even, k1, s, g);
    decpt := k1 + 1;
  }

  /** The decimal for the number in the bits times 2^be0, in s, with the place of its point and its flag.
      k0 is the estimate of its decimal exponent that the floating-point lines make; they leave it unchecked only
      between 0 and 22. The buffer of rv_alloc has at least 16 places. */
  method Gdtoa(bits: array<Word>, nbits: nat, emin: int, be0: int, k0: int, kCheck: bool, cache: PowerCache,
               s: array<char>)
    returns (n: nat, decpt: int, inex: Inexact, ghost bb: nat)
    requires cache.Valid() && 0 < nbits && (nbits - 1) / 32 < bits.Length && emin <= be0
    requires Value(bits[..(nbits - 1) / 32 + 1]) < Pow(2, nbits)
    requires Value(bits[..(nbits - 1) / 32 + 1]) > 0 ==>
      GoodEstimate(Value(bits[..(nbits - 1) / 32 + 1]), be0, k0, kCheck)
    requires kCheck ==> k0 < 0 || k0 > 22
    requires s !in cache.Repr && s.Length >= 16 && Pow(2, nbits) < Pow(10, s.Length - 2)
    modifies cache, s
    ensures cache.Valid() && fresh(cache.Repr - old(cache.Repr))
    ensures 0 < n < s.Length && s[n] == '\0' && AllDigits(s[..n])
    ensures var v := Value(bits[..(nbits - 1) / 32 + 1]);
      if v == 0 then
        s[..n] == "0" && decpt == 1 && inex == Exact
      else
        HasBits(v, bb) && bb > 0 && s[0] != '0' &&
        Prints(DigitsValue(s[..n]), decpt - n, n, inex, v, bb, be0, nbits, emin, bits[0] % 2 == 0)
  {
    hide Words.Value, Pow, RPow, HasBits, GoodEstimate, Prepared, Written, Prints, HalfUlp, PowerCache.Valid;
    hide SmallInteger, Placed, DigitsValue;
    ghost var v := Value(bits[..(nbits - 1) / 32 + 1]);
    var b, be, bbits;
    ghost var i;
    b, be, bbits, i := OddPart(bits, nbits, be0);
    bb := bbits + i;
    if b.wds == 0 {
      ValueZeros(b.x[..0]);
      s[0], s[1] := '0', '\0';
      return 1, 1, Exact, bb;
    }
    ghost var o := b.Value();
    BitsFit(v, bb, nbits);
    NonZeroBits(o, bbits);
    SameEstimate(o, i, be0, k0, kCheck);
    QuickWay(v, o, i, be0, k0, kCheck);
    if be >= 0 && k0 <= 14 {
      var d := Value(b.x[..b.wds]) * Pow(2, be);
      n := PutInteger(d, k0, s);
      decpt, inex := k0 + 1, Exact;
      SmallPrints(DigitsValue(s[..n]), k0, n, v, d, bb, be0, nbits, emin, bits[0] % 2 == 0);
      return;
    }
    ghost var g, k;
    n, decpt, inex, g, k := PrintOdd(b, be, be0, bbits, nbits, emin, k0, kCheck, bits[0] % 2 == 0, cache, s);
    WrittenIs(s[..], n, decpt - 1 - k, inex, g);
    assert s[..][..n] == s[..n];
    PrintedRight(s[..], n, decpt, k, inex, g, v, o, i, bbits, be0, nbits, emin);
  }
}
