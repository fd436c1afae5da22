/** What number the two words of a double stand for: in counting order of the words, the numbers of the format. */
module DoubleNumbers {
  import opened Words
  import opened BitCounts
  import opened DecimalMeaning
  import opened Rounding
  import opened DoubleText
  import opened DoubleReading
  import ReadingBack
  import Gdtoa

  const SIGN: nat := 0x8000_0000
  const FRACTION: nat := 0x10_0000_0000_0000
  const INFINITY: nat := 0x7ff0_0000_0000_0000

  /** Both words as one number. */
  function Joined(x: Double): nat
  {
    Join(x.lo, x.hi)
  }

  /** The number of a double that has one: what is printed with its sign. */
  ghost function Number(x: Double): real
  {
    var y := Placed(2, x.Mantissa(), x.Exponent());
    if x.Negative() then -y else y
  }

  /** The same double with its sign bit set. */
  function Negated(x: Double): Double
    requires x.hi < SIGN
  {
    Double(x.hi + SIGN, x.lo)
  }

  lemma TopBits(hi: nat)
    requires hi < SIGN
    ensures (hi + SIGN) % 0x10_0000 == hi % 0x10_0000 && (hi + SIGN) % SIGN == hi % SIGN == hi
    ensures (hi + SIGN) / 0x10_0000 % 0x800 == hi / 0x10_0000 % 0x800 == hi / 0x10_0000
  {
    var q, r := hi / 0x10_0000, hi % 0x10_0000;
    assert hi == 0x10_0000 * q + r && q < 0x800;
    QuotientIs(hi + SIGN, 0x10_0000, q + 0x800, r);
    QuotientIs(q + 0x800, 0x800, 1, q);
  }

  /** With the sign bit it is the negated number, and nothing else about it changes. */
  lemma SignBit(x: Double)
    requires x.hi < SIGN
    ensures var y := Negated(x);
      y.Negative() && !x.Negative() && Number(y) == 0.0 - Number(x) &&
      y.IsNaN() == x.IsNaN() && y.IsInfinite() == x.IsInfinite() && y.IsZero() == x.IsZero()
  {
    TopBits(x.hi);
    var y := Negated(x);
    assert y.Biased() == x.Biased();
    assert y.Mantissa() == x.Mantissa() && y.Exponent() == x.Exponent();
    hide Double.Mantissa, Double.Exponent, Double.Biased, RPow;
  }

  lemma FractionBelow(lo: Word, f: nat)
    requires f < 0x10_0000
    ensures Join(lo, f) < FRACTION
  {
  }

  /** Exponent and fraction in the joined words. */
  lemma JoinedParts(x: Double)
    requires x.hi < SIGN
    ensures var f := x.hi % 0x10_0000;
      Joined(x) / FRACTION == x.Biased() < 0x800 && Joined(x) % FRACTION == Join(x.lo, f) &&
      x.Mantissa() == Join(x.lo, f) + if x.Biased() > 0 then FRACTION else 0
  {
    var q, f := x.hi / 0x10_0000, x.hi % 0x10_0000;
    TopBits(x.hi);
    assert x.hi == 0x10_0000 * q + f;
    FractionBelow(x.lo, f);
    QuotientIs(Joined(x), FRACTION, q, Join(x.lo, f));
  }

  /** Section 3.4 of IEEE 754-2008: the number, from exponent and fraction. */
  ghost function Ieee(w: nat): real
  {
    var e, f := w / FRACTION, w % FRACTION;
    if e == 0 then Placed(2, f, -1074) else Placed(2, FRACTION + f, e - 1075)
  }

  lemma NumberIsIeee(x: Double)
    requires x.hi < SIGN
    ensures Number(x) == Ieee(Joined(x))
  {
    JoinedParts(x);
    hide RPow, Double.Mantissa, Join, Double.Biased;
  }

  /** Infinity is one joined number, NaN everything beyond it, zero the first. */
  lemma ClassesAre(x: Double)
    requires x.hi < SIGN
    ensures x.IsInfinite() <==> Joined(x) == INFINITY
    ensures x.IsNaN() <==> Joined(x) > INFINITY
    ensures x.IsZero() <==> Joined(x) == 0
    ensures IsNumber(x) <==> 0 < Joined(x) < INFINITY
  {
    hide *;
    JoinedParts(x);
    ClassParts(x);
    TopBits(x.hi);
    PartsOf(Joined(x));
    NumbersAre(x);
  }

  lemma PartsOf(w: nat)
    ensures var q, f := w / FRACTION, w % FRACTION;
      (q == 0x7ff && f == 0 <==> w == INFINITY) && (q == 0 && f == 0 <==> w == 0) &&
      (q < 0x800 ==> (q == 0x7ff && f > 0 <==> w > INFINITY))
  {
    var q, f := w / FRACTION, w % FRACTION;
    assert w == FRACTION * q + f && f < FRACTION;
  }

  lemma ClassParts(x: Double)
    requires x.hi < SIGN
    ensures var f := Join(x.lo, x.hi % 0x10_0000);
      (x.IsInfinite() <==> x.Biased() == 0x7ff && f == 0) && (x.IsNaN() <==> x.Biased() == 0x7ff && f > 0) &&
      (x.IsZero() <==> x.Biased() == 0 && f == 0)
  {
    hide *;
    var q, f := x.hi / 0x10_0000, x.hi % 0x10_0000;
    TopBits(x.hi);
    JoinBound(x.lo, f);
    ClassesByParts(x, q, f);
  }

  lemma ClassesByParts(x: Double, q: nat, f: nat)
    requires x.hi < SIGN && q == x.hi / 0x10_0000 == x.hi / 0x10_0000 % 0x800 && f == x.hi % 0x10_0000
    requires x.hi == x.hi % SIGN
    ensures x.Biased() == q && (x.IsNaN() <==> q == 0x7ff && (f != 0 || x.lo != 0))
    ensures x.IsInfinite() <==> q == 0x7ff && f == 0 && x.lo == 0
    ensures x.IsZero() <==> q == 0 && f == 0 && x.lo == 0
  {
    assert x.hi == 0x10_0000 * q + f;
  }

  lemma NumbersAre(x: Double)
    ensures IsNumber(x) <==> !x.IsNaN() && !x.IsInfinite() && !x.IsZero()
  {
    hide Double.IsNaN, Double.IsInfinite, Double.IsZero;
  }

  lemma OneIsOne()
    ensures Number(Double(0x3ff0_0000, 0)) == 1.0 && IsNumber(Double(0x3ff0_0000, 0)) && Number(Double(0, 0)) == 0.0
  {
    hide *;
    var x, z := Double(0x3ff0_0000, 0), Double(0, 0);
    OneParts();
    NumberIs(x);
    NumberIs(z);
    RPowInverse(2, 52);
    FiftyTwo();
    ClassesAre(x);
    PlacedIs2(FRACTION, 0 - 52);
    PlacedIs2(0, -1074);
    Commuted(FRACTION as real, RPow(2, 0 - 52));
  }

  lemma Commuted(a: real, b: real)
    ensures a * b == b * a && 0 as real * b == 0.0
  {
  }

  lemma NumberIs(x: Double)
    requires x.hi < SIGN
    ensures Number(x) == Placed(2, x.Mantissa(), x.Exponent())
  {
    hide Placed, Double.Mantissa, Double.Exponent;
  }

  lemma OneParts()
    ensures var x, z := Double(0x3ff0_0000, 0), Double(0, 0);
      x.Mantissa() == FRACTION && x.Exponent() == 0 - 52 && 0 < Joined(x) < INFINITY && x.hi < SIGN &&
      z.Mantissa() == 0 && z.Exponent() == -1074 && z.hi < SIGN
  {
  }

  lemma FiftyTwo()
    ensures Pow(2, 52) == FRACTION
  {
    DoublePowers();
    assert Pow(2, 53) == 2 * Pow(2, 52);
  }

  /** The last place of the numbers from w on. */
  function Step(w: nat): int
  {
    if w < FRACTION then -1074 else w / FRACTION - 1075
  }

  /** The number of w in units of its last place. */
  lemma IeeeUnits(w: nat) returns (m: nat)
    ensures Ieee(w) == Placed(2, m, Step(w)) && m < 2 * FRACTION && (w >= FRACTION ==> m >= FRACTION)
    ensures m == if w < FRACTION then w else FRACTION + w % FRACTION
  {
    m := if w < FRACTION then w else FRACTION + w % FRACTION;
    if w < FRACTION {
      QuotientIs(w, FRACTION, 0, w);
    } else {
      assert w / FRACTION > 0;
    }
    hide RPow;
  }

  lemma NextPlace(w: nat)
    ensures (w + 1) / FRACTION == w / FRACTION + if w % FRACTION == FRACTION - 1 then 1 else 0
    ensures (w + 1) % FRACTION == if w % FRACTION == FRACTION - 1 then 0 else w % FRACTION + 1
  {
    var q, r := w / FRACTION, w % FRACTION;
    if r == FRACTION - 1 {
      QuotientIs(w + 1, FRACTION, q + 1, 0);
    } else {
      QuotientIs(w + 1, FRACTION, q, r + 1);
    }
  }

  lemma PlacedNext(m: nat, e: int)
    ensures Placed(2, m + 1, e) == Placed(2, m, e) + RPow(2, e)
  {
    hide RPow;
    RDistribute(m as real, 1.0, RPow(2, e));
  }

  lemma PlacedDoubled(m: nat, e: int)
    ensures Placed(2, 2 * m, e) == Placed(2, m, e + 1)
  {
    hide *;
    Doubles(e);
    PlacedIs2(m, e + 1);
    PlacedIs2(2 * m, e);
    TwiceReal(m, RPow(2, e));
  }

  lemma PlacedIs2(m: nat, e: int)
    ensures Placed(2, m, e) == m as real * RPow(2, e)
  {
    hide RPow;
  }

  lemma TwiceReal(m: nat, p: real)
    ensures (2 * m) as real * p == m as real * (p + p)
  {
    RDistribute(m as real, m as real, p);
    RDistribute(p, p, m as real);
  }

  /** The next joined number is one unit in the last place more: the least double at the bottom. */
  lemma IeeeNext(w: nat)
    ensures Ieee(w + 1) == Ieee(w) + RPow(2, Step(w))
  {
    var m := IeeeUnits(w);
    var n := IeeeUnits(w + 1);
    NextPlace(w);
    PlacedNext(m, Step(w));
    StepUp(w);
    hide Ieee, RPow, Placed, Step;
    if w >= FRACTION && w % FRACTION == FRACTION - 1 {
      PlacedDoubled(FRACTION, Step(w));
    }
  }

  lemma StepUp(w: nat)
    ensures Step(w + 1) == if w >= FRACTION && w % FRACTION == FRACTION - 1 then Step(w) + 1 else Step(w)
  {
    NextPlace(w);
    if w < FRACTION {
      QuotientIs(w, FRACTION, 0, w);
    }
  }

  /** No number of the format lies between it and the next. */
  lemma NoneIsBetween(w: nat, v: nat, e: int)
    requires ReadingBack.InFormat(v, e, DOUBLE)
    ensures !(Ieee(w) < Placed(2, v, e) < Ieee(w + 1))
  {
    var m := IeeeUnits(w);
    var g := Step(w);
    IeeeNext(w);
    PlacedNext(m, g);
    FormatRange(v, e);
    FiftyTwo();
    hide Ieee, Placed, RPow, Pow;
    if e >= g {
      NoneOnGrid(m, g, v, e);
    } else {
      StepAbove(w);
      BelowGrid(m, g, v, e);
    }
  }

  lemma FormatRange(v: nat, e: int)
    requires ReadingBack.InFormat(v, e, DOUBLE)
    ensures 0 < v < Pow(2, 53) && e >= -1074
  {
    ReadingBack.FormatBelow(v, e, DOUBLE);
    hide Pow;
  }

  lemma StepAbove(w: nat)
    requires Step(w) > -1074
    ensures w >= FRACTION
  {
  }

  lemma NoneOnGrid(m: nat, g: int, v: nat, e: int)
    requires e >= g
    ensures !(Placed(2, m, g) < Placed(2, v, e) < Placed(2, m + 1, g))
  {
    hide *;
    var d: nat := e - g;
    RPowAdd(2, d, g);
    RPowWhole(2, d);
    PlacedIs2(v, e);
    PlacedIs2(m, g);
    PlacedIs2(m + 1, g);
    assert d + g == e;
    RealMul(v, Pow(2, d));
    RAssoc(v as real, RPow(2, d), RPow(2, g));
    WholeGrid(m, v * Pow(2, d), RPow(2, g), Placed(2, m, g), Placed(2, v, e), Placed(2, m + 1, g));
  }

  lemma WholeGrid(m: nat, n: nat, p: real, a: real, b: real, c: real)
    requires p > 0.0 && a == m as real * p && b == n as real * p && c == (m + 1) as real * p
    ensures !(a < b < c)
  {
    if m < n {
      ScaledOrder((m + 1) as real, n as real, p);
    } else {
      ScaledOrder(n as real, m as real, p);
    }
  }

  lemma ScaledOrder(a: real, b: real, p: real)
    requires a <= b && p > 0.0
    ensures a * p <= b * p
  {
    RCancel(a, b, p);
  }

  lemma BelowGrid(m: nat, g: int, v: nat, e: int)
    requires e < g && 0 < v < Pow(2, 53) && m >= Pow(2, 52)
    ensures Placed(2, v, e) < Placed(2, m, g)
  {
    hide *;
    PlaceBounds(2, v, 53, e);
    RPowOrder(53 + e, 52 + g);
    RPowNext(g, 52);
    PlacedIs2(m, g);
    PowersOrder(m, RPow(2, g));
    assert 52 + g == g + 52;
  }

  lemma PowersOrder(m: nat, p: real)
    requires m >= Pow(2, 52) && p > 0.0
    ensures Multiple(Pow(2, 52), p) <= m as real * p
  {
    hide Pow;
    RCancel(Pow(2, 52) as real, m as real, p);
  }

  /** Among doubles without a sign, the one with the next words is the next number: one unit in the last place more,
      and nothing of the format between. */
  lemma NextDouble(x: Double, y: Double)
    requires x.hi < SIGN && y.hi < SIGN && Joined(y) == Joined(x) + 1
    ensures Number(y) == Number(x) + RPow(2, Step(Joined(x)))
    ensures NothingBetween(Number(x), Number(y))
  {
    hide *;
    NumberIsIeee(x);
    NumberIsIeee(y);
    IeeeNext(Joined(x));
    NothingNext(Joined(x));
  }

  /** No number of the format lies strictly between y and z. */
  ghost predicate NothingBetween(y: real, z: real)
  {
    forall v: nat, e: int :: ReadingBack.InFormat(v, e, DOUBLE) ==> !(y < Placed(2, v, e) < z)
  }

  lemma NothingNext(w: nat)
    ensures NothingBetween(Ieee(w), Ieee(w + 1))
  {
    hide Ieee, Placed, ReadingBack.InFormat;
    forall v: nat, e: int | ReadingBack.InFormat(v, e, DOUBLE)
      ensures !(Ieee(w) < Placed(2, v, e) < Ieee(w + 1))
    {
      NoneIsBetween(w, v, e);
    }
  }

  /** Every number of the format is that of a double. */
  lemma DoubleOf(v: nat, e: int) returns (x: Double)
    requires ReadingBack.InFormat(v, e, DOUBLE)
    ensures x.hi < SIGN && IsNumber(x) && Number(x) == Placed(2, v, e)
  {
    hide *;
    FormatOf(v, e);
    var w := WordsOf(v, e);
    Halved(w);
    x := Double(w / 0x1_0000_0000, w % 0x1_0000_0000);
    ClassesAre(x);
    NumberIsIeee(x);
  }

  lemma WordsOf(v: nat, e: int) returns (w: nat)
    requires 0 < v < 2 * FRACTION && -1074 <= e <= 971 && (e > -1074 ==> v >= FRACTION)
    ensures 0 < w < INFINITY && Ieee(w) == Placed(2, v, e)
  {
    var f := if v < FRACTION then v else v - FRACTION;
    var b := if v < FRACTION then 0 else e + 1075;
    w := FRACTION * b + f;
    assert f < FRACTION && 0 < w < INFINITY;
    QuotientIs(w, FRACTION, b, f);
    hide RPow;
  }

  lemma FormatOf(v: nat, e: int)
    requires ReadingBack.InFormat(v, e, DOUBLE)
    ensures 0 < v < 2 * FRACTION && -1074 <= e <= 971 && (e > -1074 ==> v >= FRACTION)
  {
    FiftyTwo();
    ReadingBack.FormatBelow(v, e, DOUBLE);
    assert Pow(2, 53) == 2 * Pow(2, 52);
    hide Pow;
  }

  lemma Halved(w: nat)
    requires w < INFINITY
    ensures w / 0x1_0000_0000 < SIGN && w / 0x1_0000_0000 < 0x1_0000_0000 && w % 0x1_0000_0000 < 0x1_0000_0000
    ensures Joined(Double(w / 0x1_0000_0000, w % 0x1_0000_0000)) == w
  {
  }
}
