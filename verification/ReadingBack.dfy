/** To read back is to be rounded to the number: the gaps of the printer are those of a correct reader, but for one
    number of each format. */
module ReadingBack {
  import opened Words
  import opened BitCounts
  import opened DigitLoop
  import opened Scaling
  import opened DecimalMeaning
  import opened PrintedMeaning
  import opened SmallIntegers
  import opened Rounding
  import opened Gdtoa
  import opened Gethex

  /** v 2^e is a number of the format, with as many bits as it has. */
  ghost predicate InFormat(v: nat, e: int, f: Fpi)
  {
    f.Valid() && f.nbits > 1 &&
    if f.emin < e then HasBits(v, f.nbits) && e <= f.emax else e == f.emin && 0 < v < Pow(2, f.nbits)
  }

  function KindOf(v: nat, f: Fpi): Kind
    requires f.Valid()
  {
    if v < Pow(2, f.nbits - 1) then Denormal else Normal
  }

  /** Correct rounding of y gives v 2^e, whatever it says about the side. */
  ghost predicate RoundsTo(y: real, v: nat, e: int, f: Fpi)
    requires f.Valid()
  {
    exists inex :: CorrectlyRounded(y, f, KindOf(v, f), inex, v, e)
  }

  /** What the printer takes for the numbers that read back. */
  ghost predicate GapHas(y: real, v: nat, bb: nat, e: int, f: Fpi)
    requires bb > 0
  {
    var hi := RPow(2, HalfUlp(e, bb, f.nbits, f.emin));
    Reads(y, Placed(2, v, e), LowerGap(hi, LowerCloser(v, bb, e, f.emin)), hi, v % 2 == 0)
  }

  /** Half a step to both sides, with the ends for even numbers, is what rounds to a multiple. */
  lemma HalfStep(y: real, v: nat, p: real, h: real)
    requires p > 0.0 && h == p / 2.0
    ensures Reads(y, Multiple(v, p), h, h, v % 2 == 0) <==> NearestEven(y, v, p)
  {
    Next(v, p);
    Next(v - 1, p);
    hide Multiple;
    if Reads(y, Multiple(v, p), h, h, v % 2 == 0) {
      forall X: int | X != v
        ensures Distance(Multiple(v, p), y) <= Distance(Multiple(X, p), y)
        ensures Distance(Multiple(v, p), y) == Distance(Multiple(X, p), y) ==> v % 2 == 0
      {
        Steps(X, v, p);
        Steps(v, X, p);
      }
    }
    if NearestEven(y, v, p) {
      assert Distance(Multiple(v, p), y) <= Distance(Multiple(v + 1, p), y);
      assert Distance(Multiple(v, p), y) <= Distance(Multiple(v - 1, p), y);
    }
  }

  /** A multiple between y and another one is nearer than that. */
  lemma NotBeyond(y: real, r: int, c: int, p: real)
    requires p > 0.0 && NearestEven(y, r, p)
    ensures !(y <= Multiple(c, p) < Multiple(r, p)) && !(Multiple(r, p) < Multiple(c, p) <= y)
  {
    hide Multiple;
    if c != r {
      assert Distance(Multiple(r, p), y) <= Distance(Multiple(c, p), y);
    }
  }

  /** A power of two on the grid of a smaller one. */
  lemma OnGrid(d: int, g: int) returns (c: nat)
    requires g <= d
    ensures Multiple(c, RPow(2, g)) == RPow(2, d)
  {
    hide Pow, RPow, Multiple;
    c := Pow(2, d - g);
    RPowNext(g, d - g);
  }

  lemma PlacedIsMultiple(v: nat, e: int)
    ensures Placed(2, v, e) == Multiple(v, RPow(2, e))
  {
    hide RPow;
  }

  /** Numbers of the binade of v 2^e, or of the numbers without a leading bit. */
  ghost predicate SameGrid(y: real, e: int, f: Fpi)
  {
    0.0 < y < RPow(2, e + f.nbits) && (e == f.emin || RPow(2, e + f.nbits - 1) <= y)
  }

  lemma GridIs(y: real, t: int, e: int, f: Fpi)
    requires f.Valid() && f.emin <= e && Magnitude(y, t) && SameGrid(y, e, f)
    ensures Grid(t, f) == e
  {
    hide RPow;
    RPowOrder(e + f.nbits, t - 1);
    RPowOrder(t, e + f.nbits - 1);
  }

  /** There is a magnitude for every positive number of the grid. */
  lemma {:induction false} MagnitudeFrom(y: real, lo: int, n: nat) returns (t: int)
    requires RPow(2, lo) <= y < RPow(2, lo + n)
    ensures Magnitude(y, t)
    decreases n
  {
    hide RPow;
    if n == 0 {
      t := lo;
    } else if y < RPow(2, lo + n - 1) {
      t := MagnitudeFrom(y, lo, n - 1);
    } else {
      t := lo + n;
    }
  }

  ghost function SideFlag(y: real, X: real): Inexact
  {
    if X == y then Exact else if X < y then Inexlo else Inexhi
  }

  /** The parts of a rounding to a number of the format. */
  lemma RoundsParts(y: real, v: nat, e: int, f: Fpi) returns (t: int, r: nat)
    requires InFormat(v, e, f) && RoundsTo(y, v, e, f)
    ensures Magnitude(y, t) && NearestEven(y, r, RPow(2, Grid(t, f)))
    ensures Multiple(r, RPow(2, Grid(t, f))) == Multiple(v, RPow(2, e))
  {
    hide RPow, NearestEven, Magnitude, Multiple, Pow, HasBits;
    var inex :| CorrectlyRounded(y, f, KindOf(v, f), inex, v, e);
    t, r :| Magnitude(y, t) && Answer(y, f, KindOf(v, f), inex, v, e, r, Grid(t, f));
  }

  lemma FormatBelow(v: nat, e: int, f: Fpi)
    requires InFormat(v, e, f)
    ensures 0 < v < Pow(2, f.nbits) && f.emin <= e <= f.emax
    ensures e > f.emin ==> Pow(2, f.nbits - 1) <= v
    ensures 0.0 < Multiple(v, RPow(2, e)) < RPow(2, e + f.nbits)
    ensures e > f.emin ==> RPow(2, e + f.nbits - 1) <= Multiple(v, RPow(2, e))
    ensures Pow(2, f.nbits - 1) < v ==> RPow(2, e + f.nbits - 1) + RPow(2, e) <= Multiple(v, RPow(2, e))
    ensures Multiple(v, RPow(2, e)) + RPow(2, e) <= RPow(2, e + f.nbits)
    ensures Multiple(Pow(2, f.nbits - 1), RPow(2, e)) == RPow(2, e + f.nbits - 1)
  {
    assert Multiple(0, RPow(2, e)) == 0.0;
    hide Pow, RPow, Multiple;
    RPowNext(e, f.nbits);
    RPowNext(e, f.nbits - 1);
    assert e + (f.nbits - 1) == e + f.nbits - 1;
    Steps(0, v, RPow(2, e));
    Steps(v, Pow(2, f.nbits), RPow(2, e));
    Steps(Pow(2, f.nbits - 1), v, RPow(2, e));
  }

  /** Rounding on the right grid gives the number of the format. */
  lemma NearestAnswers(y: real, t: int, v: nat, e: int, r: nat, g: int, f: Fpi)
    requires InFormat(v, e, f) && Magnitude(y, t) && g == Grid(t, f) && NearestEven(y, r, RPow(2, g))
    requires Multiple(r, RPow(2, g)) == Multiple(v, RPow(2, e))
    requires v < Pow(2, f.nbits - 1) ==> g == e && r == v
    ensures RoundsTo(y, v, e, f)
  {
    FormatBelow(v, e, f);
    hide RPow, NearestEven, Magnitude, Multiple, Pow;
    RPowOrder(e + f.nbits, f.nbits + f.emax);
    var inex := SideFlag(y, Multiple(v, RPow(2, e)));
    assert Answer(y, f, KindOf(v, f), inex, v, e, r, g);
    assert CorrectlyRounded(y, f, KindOf(v, f), inex, v, e);
  }

  /** Equal multiples have equal factors. */
  lemma SameFactor(r: nat, v: nat, p: real)
    requires p > 0.0 && Multiple(r, p) == Multiple(v, p)
    ensures r == v
  {
    RCancel(r as real, v as real, p);
  }

  lemma {:induction false} BelowPower(n: nat)
    ensures n < Pow(2, n)
  {
    if n > 0 {
      BelowPower(n - 1);
    }
  }

  /** Every positive number has a magnitude. */
  lemma PositiveMagnitude(y: real) returns (t: int)
    requires y > 0.0
    ensures Magnitude(y, t)
  {
    var m, n := y.Floor + 1, (1.0 / y).Floor + 1;
    Inverse(y);
    BelowPower(m);
    BelowPower(n);
    hide Pow, RPow, Magnitude;
    RPowWhole(2, m);
    AboveInverse(y, n);
    t := MagnitudeFrom(y, -n, n + m);
  }

  lemma AboveInverse(y: real, n: nat)
    requires y > 0.0 && n > 0 && 1.0 / y < n as real && n < Pow(2, n)
    ensures RPow(2, 0 - n) <= y
  {
    hide Pow, RPow;
    RPowInverse(2, n);
    Inverse(y);
    InverseOrder(y, 1.0 / y, RPow(2, 0 - n), Pow(2, n) as real);
  }

  lemma InverseOrder(y: real, z: real, q: real, w: real)
    requires y > 0.0 && z * y == 1.0 && q * w == 1.0 && w > z && w > 0.0
    ensures q <= y
  {
    RCancel(z, w, y);
    RCancel(q, y, w);
  }

  /** On the number's own grid rounding is to the nearest multiple of its last place. */
  lemma OnSameGrid(y: real, v: nat, e: int, f: Fpi)
    requires InFormat(v, e, f) && SameGrid(y, e, f)
    ensures RoundsTo(y, v, e, f) <==> NearestEven(y, v, RPow(2, e))
  {
    FormatBelow(v, e, f);
    assert y > 0.0;
    hide RPow, NearestEven, Magnitude, Multiple, Pow, RoundsTo, InFormat, SameGrid, Grid;
    if RoundsTo(y, v, e, f) {
      var t, r := RoundsParts(y, v, e, f);
      GridIs(y, t, e, f);
      SameFactor(r, v, RPow(2, e));
    } else if NearestEven(y, v, RPow(2, e)) {
      var t := PositiveMagnitude(y);
      GridIs(y, t, e, f);
      NearestAnswers(y, t, v, e, v, e, f);
    }
  }

  lemma MagnitudeOrder(y: real, t: int, d: int)
    requires Magnitude(y, t)
    ensures y > 0.0
    ensures y >= RPow(2, d) ==> t > d
    ensures y < RPow(2, d) ==> t <= d
  {
    hide RPow;
    RPowOrder(t, d);
    RPowOrder(d, t - 1);
    assert RPow(2, t - 1) > 0.0;
  }

  /** Numbers beyond the next power of two round to no less than that. */
  lemma NotAbove(y: real, v: nat, e: int, f: Fpi)
    requires InFormat(v, e, f) && y >= RPow(2, e + f.nbits)
    ensures !RoundsTo(y, v, e, f)
  {
    FormatBelow(v, e, f);
    hide RPow, NearestEven, Magnitude, Multiple, Pow, RoundsTo, InFormat;
    if RoundsTo(y, v, e, f) {
      var t, r := RoundsParts(y, v, e, f);
      MagnitudeOrder(y, t, e + f.nbits);
      MagnitudeIs(y, t);
      RPowOrder(e + f.nbits, t - 1);
      var c := OnGrid(t - 1, Grid(t, f));
      NotBeyond(y, r, c, RPow(2, Grid(t, f)));
      assert false;
    }
  }

  /** Numbers below a power of two round to no more than that. */
  lemma NotBelow(y: real, v: nat, e: int, f: Fpi, d: int)
    requires InFormat(v, e, f) && f.emin <= d && y < RPow(2, d) < Multiple(v, RPow(2, e))
    ensures !RoundsTo(y, v, e, f)
  {
    FormatBelow(v, e, f);
    hide RPow, NearestEven, Magnitude, Multiple, Pow, RoundsTo, InFormat;
    if RoundsTo(y, v, e, f) {
      var t, r := RoundsParts(y, v, e, f);
      MagnitudeOrder(y, t, d);
      var c := OnGrid(d, Grid(t, f));
      NotBeyond(y, r, c, RPow(2, Grid(t, f)));
      assert false;
    }
  }

  lemma EvenPower(n: nat)
    requires n > 0
    ensures Pow(2, n) % 2 == 0
  {
  }

  /** Just below a power of two the grid is twice as fine. */
  lemma BelowPowerOfTwo(y: real, v: nat, e: int, f: Fpi)
    requires InFormat(v, e, f) && e > f.emin && v == Pow(2, f.nbits - 1) && y < Multiple(v, RPow(2, e))
    ensures RoundsTo(y, v, e, f) <==> Multiple(v, RPow(2, e)) - y <= RPow(2, e - 2)
  {
    FormatBelow(v, e, f);
    EvenPower(f.nbits);
    EvenPower(f.nbits - 1);
    hide RPow, NearestEven, Magnitude, Multiple, Pow, RoundsTo, InFormat, Grid;
    var X, d := Multiple(v, RPow(2, e)), e + f.nbits - 1;
    HalfPower(e);
    HalfPower(e - 1);
    HalfPower(d);
    RPowOrder(e - 1, d - 1);
    if y < RPow(2, d - 1) {
      NotBelow(y, v, e, f, d - 1);
    } else {
      FinerGrid(y, f, e);
      RPowNext(e - 1, f.nbits);
      assert e - 1 + f.nbits == d;
      assert Multiple(Pow(2, f.nbits), RPow(2, e - 1)) == X;
      HalfStep(y, Pow(2, f.nbits), RPow(2, e - 1), RPow(2, e - 2));
      if RoundsTo(y, v, e, f) {
        var t, r := RoundsParts(y, v, e, f);
        GridIs(y, t, e - 1, f);
        SameFactor(r, Pow(2, f.nbits), RPow(2, e - 1));
      } else if NearestEven(y, Pow(2, f.nbits), RPow(2, e - 1)) {
        var t := PositiveMagnitude(y);
        GridIs(y, t, e - 1, f);
        NearestAnswers(y, t, v, e, Pow(2, f.nbits), e - 1, f);
      }
    }
  }

  lemma FinerGrid(y: real, f: Fpi, e: int)
    requires RPow(2, e + f.nbits - 1 - 1) <= y < RPow(2, e + f.nbits - 1)
    ensures y > 0.0 && SameGrid(y, e - 1, f)
  {
    hide RPow;
    assert e - 1 + f.nbits == e + f.nbits - 1 && e - 1 + f.nbits - 1 == e + f.nbits - 1 - 1;
    assert RPow(2, e + f.nbits - 1 - 1) > 0.0;
  }

  /** The gaps are half the last place, and half of that below a power of two. */
  lemma GapIs(y: real, v: nat, bb: nat, e: int, f: Fpi)
    requires InFormat(v, e, f) && bb > 0 && HasBits(v, bb)
    ensures var X, spec := Multiple(v, RPow(2, e)), v == Pow(2, f.nbits - 1) && e > f.emin + 1;
      var down := if spec then RPow(2, e - 2) else RPow(2, e - 1);
      GapHas(y, v, bb, e, f) <==> Reads(y, X, down, RPow(2, e - 1), v % 2 == 0)
  {
    PlacedIsMultiple(v, e);
    HalfPower(e - 1);
    HalfUlpIs(v, bb, e, f);
    hide RPow, HalfUlp, Multiple, Placed, Pow, HasBits, InFormat, Reads;
  }

  lemma HalfUlpIs(v: nat, bb: nat, e: int, f: Fpi)
    requires InFormat(v, e, f) && bb > 0 && HasBits(v, bb)
    ensures HalfUlp(e, bb, f.nbits, f.emin) == e - 1
    ensures LowerCloser(v, bb, e, f.emin) <==> v == Pow(2, f.nbits - 1) && e > f.emin + 1
  {
    hide Pow;
    if e > f.emin {
      HasBitsUnique(v, bb, f.nbits);
    } else {
      BitsFit(v, bb, f.nbits);
    }
  }

  /** Correct rounding of y gives the number exactly when y is in its gap; but right above the least binade the gap of
      a power of two goes down twice as far as it should. */
  lemma ReadsIsRounding(y: real, v: nat, bb: nat, e: int, f: Fpi)
    requires InFormat(v, e, f) && bb > 0 && HasBits(v, bb)
    ensures RoundsTo(y, v, e, f) <==>
      GapHas(y, v, bb, e, f) &&
      !(v == Pow(2, f.nbits - 1) && e == f.emin + 1 && y < Placed(2, v, e) - RPow(2, e - 2))
  {
    FormatBelow(v, e, f);
    GapIs(y, v, bb, e, f);
    PlacedIsMultiple(v, e);
    HalfPower(e);
    HalfPower(e - 1);
    EvenPower(f.nbits - 1);
    assert f.nbits > 1;
    AboveZero(v, e);
    hide RPow, NearestEven, Multiple, Pow, RoundsTo, InFormat, GapHas, Placed, HasBits;
    if y >= RPow(2, e + f.nbits) {
      NotAbove(y, v, e, f);
    } else if y <= 0.0 {
      OnlyPositive(y, v, e, f);
    } else if e == f.emin || RPow(2, e + f.nbits - 1) <= y {
      OnSameGrid(y, v, e, f);
      HalfStep(y, v, RPow(2, e), RPow(2, e - 1));
    } else if v == Pow(2, f.nbits - 1) {
      BelowPowerOfTwo(y, v, e, f);
    } else {
      NotBelow(y, v, e, f, e + f.nbits - 1);
    }
  }

  lemma AboveZero(v: nat, e: int)
    requires v > 0
    ensures Multiple(v, RPow(2, e)) >= RPow(2, e)
  {
    assert Multiple(0, RPow(2, e)) == 0.0;
    hide Multiple, RPow;
    Steps(0, v, RPow(2, e));
  }

  lemma OnlyPositive(y: real, v: nat, e: int, f: Fpi)
    requires InFormat(v, e, f) && y <= 0.0
    ensures !RoundsTo(y, v, e, f)
  {
    assert f.Valid();
    hide RPow, NearestEven, Magnitude, Multiple, Pow, RoundsTo, InFormat;
    if RoundsTo(y, v, e, f) {
      var t, r := RoundsParts(y, v, e, f);
      MagnitudeOrder(y, t, 0);
      assert false;
    }
  }

  /** What gdtoa prints for a number of the format is rounded to that number, but for the gap that is too wide. */
  lemma PrintedIsRounded(M: nat, e: int, n: nat, inex: Inexact, v: nat, bb: nat, be: int, f: Fpi)
    requires InFormat(v, be, f) && n > 0 && bb > 0 && HasBits(v, bb)
    requires Prints(M, e, n, inex, v, bb, be, f.nbits, f.emin, v % 2 == 0)
    ensures RoundsTo(Decimal(M, e), v, be, f) <==>
      !(v == Pow(2, f.nbits - 1) && be == f.emin + 1 && Decimal(M, e) < Placed(2, v, be) - RPow(2, be - 2))
  {
    var hi := RPow(2, HalfUlp(be, bb, f.nbits, f.emin));
    LowerNotMore(hi, LowerCloser(v, bb, be, f.emin));
    PrintedReads(M, e, n, inex, v, bb, be, f, LowerGap(hi, LowerCloser(v, bb, be, f.emin)), hi);
    ReadsIsRounding(Decimal(M, e), v, bb, be, f);
    hide Pow, RPow, Decimal, Placed, RoundsTo, Prints, HalfUlp, Reads, LowerGap, LowerCloser, InFormat;
  }

  lemma PrintedReads(M: nat, e: int, n: nat, inex: Inexact, v: nat, bb: nat, be: int, f: Fpi, lo: real, hi: real)
    requires n > 0 && bb > 0 && Prints(M, e, n, inex, v, bb, be, f.nbits, f.emin, v % 2 == 0)
    requires hi == RPow(2, HalfUlp(be, bb, f.nbits, f.emin)) && lo == LowerGap(hi, LowerCloser(v, bb, be, f.emin))
    requires 0.0 < lo <= hi
    ensures Reads(Decimal(M, e), Placed(2, v, be), lo, hi, v % 2 == 0)
  {
    hide Pow, RPow, Decimal, Placed, HalfUlp, LowerGap, LowerCloser, SmallInteger, NearestReading, Misnamed;
  }
}
