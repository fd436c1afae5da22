/** gethex, rounding to nearest: hexadecimal text to a binary number of nbits bits and exponents from
    emin to emax. */
module Gethex {
  import opened Words
  import opened Bigints
  import opened Shifts
  import opened RightShifts
  import opened BitCounts
  import opened DecimalMeaning
  import opened DigitLoop
  import opened Rounding
  import opened HexText
  import opened Digits
  import opened Numerals
  import opened Packing
  import opened HexBits

  datatype Fpi = Fpi(nbits: nat, emin: int, emax: int) {
    predicate Valid() {
      nbits > 0 && emin <= emax
    }
  }

  datatype Kind = Zero | Normal | Denormal | Infinite

  /** x brought to exactly nbits bits: cut off, with what was lost. */
  method Normalise(b0: Bigint, n0: nat, nbits: nat, e0: int, ghost x: real) returns (b: Bigint, e: int, lost: nat)
    requires b0.Ok() && HasBits(b0.Value(), n0) && nbits > 0 && x == Multiple(b0.Value(), RPow(2, e0))
    modifies b0`wds, b0.x
    ensures b == b0 || (fresh(b) && fresh(b.x))
    ensures b.Ok() && HasBits(b.Value(), nbits) && e == e0 + n0 - nbits
    ensures lost <= 3 && Held(x, b.Value(), RPow(2, e), lost)
  {
    hide Words.Value, Pow, RPow, HasBits, Multiple, Lost;
    b, e, lost := b0, e0, 0;
    ghost var v := b.Value();
    var n := n0;
    if n > nbits {
      n := n - nbits;
      NonZeroBits(v, n0);
      WordsForBits(b, n0);
      lost := FirstLost(b, n);
      RShift(b, n);
      e := e + n;
      HasBitsAfter(v, n0, n);
      HeldShift(x, v, RPow(2, e0), 0, n);
      RPowNext(e0, n);
    } else if n < nbits {
      n := nbits - n;
      NonZeroBits(v, n0);
      NonEmpty(b);
      b := LShift(b, n);
      e := e - n;
      HasBitsShift(v, n0, n);
      ShiftedUp(v, e0, n);
    }
  }

  /** Rounds the cut-off number to nearest, ties to even. */
  method RoundTail(b0: Bigint, lost: nat, ghost x: real, ghost p: real) returns (b: Bigint, inex: Inexact)
    requires b0.Ok() && b0.wds > 0 && lost <= 3 && p > 0.0 && Held(x, b0.Value(), p, lost)
    modifies b0, b0.x
    ensures b == b0 || (fresh(b) && fresh(b.x))
    ensures b.Ok() && NearestEven(x, b.Value(), p) && SideNamed(inex, x, Multiple(b.Value(), p))
    ensures old(b0.Value()) <= b.Value() <= old(b0.Value()) + 1
    ensures inex != Inexhi ==> b == b0 && b.wds == old(b0.wds) && b.Value() == old(b0.Value())
    ensures inex != Inexhi ==> forall j :: b.wds <= j < b.maxwds ==> b.x[j] == old(b0.x[j])
    ensures inex == Inexhi ==> b.Value() == old(b0.Value()) + 1
    ensures b.wds == old(b0.wds) || (b.wds == old(b0.wds) + 1 && b.Value() == Weight(old(b0.wds)))
    ensures b.wds == old(b0.wds) ==> b == b0 && forall j :: b.wds <= j < b.maxwds ==> b.x[j] == old(b0.x[j])
  {
    hide Words.Value, Weight, Pow, Multiple, Held, NearestEven;
    b, inex := b0, Exact;
    HeldRounds(x, b.Value(), p, lost);
    if lost != 0 {
      LowestBit(b);
      if lost / 2 == 1 && (lost % 2 == 1 || b.x[0] % 2 == 1) {
        b := Increment(b);
        inex := Inexhi;
      } else {
        inex := Inexlo;
      }
    }
  }

  lemma LowestBit(b: Bigint)
    requires b.Ok() && b.wds > 0
    ensures b.x[0] % 2 == b.Value() % 2
  {
    BitAt(b.x[..b.wds], 0);
    assert Pow(2, 0) == 1;
  }

  /** More than nbits bits, from the word count and the top word. */
  lemma OneBitMore(b: Bigint, nbits: nat, k: nat, h: nat)
    requires b.Ok() && 0 < b.Value() <= Pow(2, nbits) && nbits > 0 && k == (nbits - 1) / 32 + 1
    requires b.wds == k || (b.wds == k + 1 && b.Value() == Weight(k))
    requires b.wds == k ==> h < 32 && HasBits(b.x[k - 1], 32 - h)
    ensures (b.wds > k || (nbits % 32 != 0 && h < 32 - nbits % 32)) <==> b.Value() == Pow(2, nbits)
  {
    hide Words.Value, Weight, Pow, HasBits;
    if b.wds > k {
      WeightIsPow2(k);
      if nbits < 32 * k {
        PowStrict(2, nbits, 32 * k);
      }
    } else {
      BitsFromTop(b.x[..k], h);
      BitsReach(b.Value(), 32 * k - h, nbits);
    }
  }

  lemma BitsReach(v: nat, n: nat, nbits: nat)
    requires HasBits(v, n) && v <= Pow(2, nbits)
    ensures n > nbits <==> v == Pow(2, nbits)
  {
    if n > nbits {
      PowMono(2, nbits, n - 1);
    } else {
      PowMono(2, n, nbits);
    }
  }

  /** Rounds a number of nbits bits; when it becomes 2^nbits it is halved and the exponent goes up. */
  method RoundNormal(b0: Bigint, e0: int, lost: nat, nbits: nat, ghost x: real)
    returns (b: Bigint, e: int, inex: Inexact, ghost r: nat)
    requires b0.Ok() && nbits > 0 && HasBits(b0.Value(), nbits) && lost <= 3 && Held(x, b0.Value(), RPow(2, e0), lost)
    modifies b0, b0.x
    ensures b.Ok() && HasBits(b.Value(), nbits)
    ensures NearestEven(x, r, RPow(2, e0)) && SideNamed(inex, x, Multiple(r, RPow(2, e0)))
    ensures if e == e0 then r == b.Value() else e == e0 + 1 && r == Pow(2, nbits) && 2 * b.Value() == r
  {
    hide Words.Value, Weight, Pow, RPow, HasBits, Multiple, Held, NearestEven, SideNamed;
    ghost var v := b0.Value();
    NonZeroBits(v, nbits);
    NonEmpty(b0);
    WordsForBits(b0, nbits);
    var k := b0.wds;
    b, inex := RoundTail(b0, lost, x, RPow(2, e0));
    r, e := b.Value(), e0;
    StillBits(v, r, nbits);
    if inex == Inexhi {
      var h := 0;
      if b.wds == k {
        TopWordNotZero(b);
        h := Hi0Bits(b.x[k - 1]);
      }
      OneBitMore(b, nbits, k, h);
      if b.wds > k || (nbits % 32 != 0 && h < 32 - nbits % 32) {
        HalvedPower(nbits);
        RShift(b, 1);
        e := e + 1;
      }
    }
  }

  lemma TopWordNotZero(b: Bigint)
    requires b.Ok() && b.Value() > 0
    ensures b.wds > 0 && b.x[b.wds - 1] != 0
  {
    if b.wds == 1 {
      ValueOne(b.x[..1]);
    }
  }

  lemma StillBits(v: nat, r: nat, nbits: nat)
    requires HasBits(v, nbits) && v <= r <= v + 1
    ensures 0 < r <= Pow(2, nbits)
    ensures r < Pow(2, nbits) ==> HasBits(r, nbits)
  {
  }

  lemma HalvedPower(n: nat)
    requires n > 0
    ensures Pow(2, n) / Pow(2, 1) == Pow(2, n - 1) && 2 * Pow(2, n - 1) == Pow(2, n) && HasBits(Pow(2, n - 1), n)
  {
    assert Pow(2, 1) == 2 && Pow(2, n) == 2 * Pow(2, n - 1);
  }

  /** The same below emin: n bits are dropped before rounding. The result may just reach nbits bits less one. */
  method RoundDenormal(b0: Bigint, e0: int, lost0: nat, nbits: nat, emin: int, ghost x: real)
    returns (b: Bigint, kind: Kind, inex: Inexact)
    requires b0.Ok() && HasBits(b0.Value(), nbits) && lost0 <= 3 && Held(x, b0.Value(), RPow(2, e0), lost0)
    requires 0 < emin - e0 < nbits
    modifies b0, b0.x
    ensures b.Ok() && 0 < b.Value() <= Pow(2, nbits - 1)
    ensures NearestEven(x, b.Value(), RPow(2, emin)) && SideNamed(inex, x, Multiple(b.Value(), RPow(2, emin)))
    ensures kind == if b.Value() == Pow(2, nbits - 1) then Normal else Denormal
  {
    hide Words.Value, Weight, Pow, RPow, HasBits, Multiple, Held, NearestEven, SideNamed, Lost;
    var n := emin - e0;
    ghost var v := b0.Value();
    NonZeroBits(v, nbits);
    WordsForBits(b0, nbits);
    ghost var w := b0.wds;
    var lost := SecondLost(b0, n, lost0);
    RShift(b0, n);
    HeldShift(x, v, RPow(2, e0), lost0, n);
    RPowNext(e0, n);
    HasBitsAfter(v, nbits, n);
    ghost var q := b0.Value();
    NonEmpty(b0);
    WordsForBits(b0, nbits - n);
    b, inex := RoundTail(b0, lost, x, RPow(2, emin));
    kind := Denormal;
    StillBits(q, b.Value(), nbits - n);
    ReachesTop(b.Value(), nbits, n);
    if inex == Inexhi && n == 1 {
      WordsMeet(nbits, w, b0.wds);
      var bit := BitOn(b, nbits - 1);
      if bit {
        kind := Normal;
      }
    } else {
      NotReached(q, nbits, n);
    }
  }

  lemma WordsMeet(nbits: nat, w: nat, w': nat)
    requires nbits > 1 && w == (nbits - 1) / 32 + 1
    ensures (nbits - 1) / 32 == w - 1
    ensures w' == (nbits - 2) / 32 + 1 ==> w - 1 <= w'
  {
  }

  lemma ReachesTop(r: nat, nbits: nat, n: nat)
    requires 0 < n < nbits && r <= Pow(2, nbits - n)
    ensures r <= Pow(2, nbits - 1) && (r == Pow(2, nbits - 1) ==> n == 1)
    ensures r / Pow(2, nbits - 1) % 2 == 1 <==> r == Pow(2, nbits - 1)
  {
    PowMono(2, nbits - n, nbits - 1);
    if n > 1 {
      PowStrict(2, nbits - n, nbits - 1);
    }
    hide Pow;
    if r < Pow(2, nbits - 1) {
      DivSmall(r, Pow(2, nbits - 1));
    } else {
      QuotientIs(r, r, 1, 0);
    }
  }

  lemma NotReached(q: nat, nbits: nat, n: nat)
    requires 0 < n < nbits && HasBits(q, nbits - n)
    ensures q != Pow(2, nbits - 1)
  {
    PowMono(2, nbits - n, nbits - 1);
  }

  /** x lies between two neighbouring powers of two. */
  ghost predicate Magnitude(x: real, t: int)
  {
    RPow(2, t - 1) <= x < RPow(2, t)
  }

  /** The exponent of the last place for numbers of that magnitude: nbits bits, but not below emin. */
  function Grid(t: int, f: Fpi): int
  {
    if t - f.nbits > f.emin then t - f.nbits else f.emin
  }

  /** v 2^exp is r units of the grid 2^g, the nearest to x, in the form its kind asks for; or it is too
      large. A format of a single bit calls its least number denormal. */
  ghost predicate Answer(x: real, f: Fpi, kind: Kind, inex: Inexact, v: nat, exp: int, r: nat, g: int)
    requires f.Valid()
  {
    var y := Multiple(r, RPow(2, g));
    NearestEven(x, r, RPow(2, g)) && (kind == Infinite <==> y >= RPow(2, f.nbits + f.emax)) &&
    match kind
    case Infinite => inex == Inexhi
    case Zero => r == 0 && v == 0 && SideNamed(inex, x, y)
    case Normal =>
      Multiple(v, RPow(2, exp)) == y && HasBits(v, f.nbits) && f.emin <= exp <= f.emax && SideNamed(inex, x, y)
    case Denormal =>
      r == v && 0 < v && (v < Pow(2, f.nbits - 1) || f.nbits == 1) && exp == g == f.emin && SideNamed(inex, x, y)
  }

  /** The answer that section 4.3.1 of IEEE 754-2008 asks for when rounding to nearest, ties to even. */
  ghost predicate CorrectlyRounded(x: real, f: Fpi, kind: Kind, inex: Inexact, v: nat, exp: int)
    requires f.Valid()
  {
    exists t: int, r: nat :: Magnitude(x, t) && Answer(x, f, kind, inex, v, exp, r, Grid(t, f))
  }

  /** Where the answer is wrong: just above half the least number, nearer than the nbits bits reach, it is
      rounded down; with a single bit exactly half of it is rounded up. */
  ghost predicate Misrounds(x: real, f: Fpi)
  {
    if f.nbits == 1 then
      x == RPow(2, f.emin - 1)
    else
      RPow(2, f.emin - 1) < x < RPow(2, f.emin - 1) + RPow(2, f.emin - f.nbits)
  }

  lemma HeldBetween(x: real, v: nat, p: real, lost: nat, lo: nat, hi: nat)
    requires p > 0.0 && Held(x, v, p, lost) && lo <= v < hi
    ensures Multiple(lo, p) <= x < Multiple(hi, p)
  {
    hide Multiple;
    Steps(lo, v, p);
    Steps(v + 1, hi, p);
    Next(v, p);
  }

  lemma HeldMagnitude(x: real, v: nat, e: int, lost: nat, nbits: nat)
    requires nbits > 0 && HasBits(v, nbits) && Held(x, v, RPow(2, e), lost)
    ensures Magnitude(x, e + nbits)
  {
    hide Pow, RPow, Held, Multiple;
    HeldBetween(x, v, RPow(2, e), lost, Pow(2, nbits - 1), Pow(2, nbits));
    RPowNext(e, nbits - 1);
    RPowNext(e, nbits);
    assert e + (nbits - 1) == e + nbits - 1;
  }

  lemma MagnitudeUnique(x: real, t: int, t': int)
    requires Magnitude(x, t) && Magnitude(x, t')
    ensures t == t'
  {
    hide RPow;
    RPowOrder(t, t' - 1);
    RPowOrder(t', t - 1);
  }

  /** Numbers of at least 2^emin never come near the faulty case. */
  lemma NotTiny(x: real, t: int, f: Fpi)
    requires f.Valid() && Magnitude(x, t) && t - 1 >= f.emin
    ensures x >= RPow(2, f.emin) && !Misrounds(x, f)
  {
    hide RPow;
    RPowOrder(f.emin, t - 1);
    RPowOrder(f.emin - 1, f.emin);
    RPowOrder(f.emin - f.nbits, f.emin - 1);
  }

  lemma NormalAnswer(x: real, f: Fpi, e0: int, inex: Inexact, v: nat, e: int, r: nat)
    requires f.Valid() && HasBits(v, f.nbits) && f.emin <= e0 && e <= f.emax
    requires NearestEven(x, r, RPow(2, e0)) && SideNamed(inex, x, Multiple(r, RPow(2, e0)))
    requires if e == e0 then r == v else e == e0 + 1 && r == 2 * v
    requires Magnitude(x, e0 + f.nbits)
    ensures CorrectlyRounded(x, f, Normal, inex, v, e)
  {
    hide Pow, RPow, Multiple, NearestEven, Magnitude, SideNamed;
    RPowNext(e, f.nbits);
    Steps(v, Pow(2, f.nbits), RPow(2, e));
    RPowOrder(e + f.nbits, f.nbits + f.emax);
    Doubled(v, e0);
    assert Answer(x, f, Normal, inex, v, e, r, Grid(e0 + f.nbits, f));
  }

  lemma Doubled(v: nat, e: int)
    ensures Multiple(2 * v, RPow(2, e)) == Multiple(v, RPow(2, e + 1))
  {
    assert Pow(2, 1) == 2;
    ShiftedUp(v, e + 1, 1);
  }

  lemma OverflowAnswer(x: real, f: Fpi, e0: int, v: nat, exp: int, r: nat)
    requires f.Valid() && f.emin <= e0 && NearestEven(x, r, RPow(2, e0)) && Magnitude(x, e0 + f.nbits)
    requires (e0 > f.emax && r >= Pow(2, f.nbits - 1)) || (e0 == f.emax && r == Pow(2, f.nbits))
    ensures CorrectlyRounded(x, f, Infinite, Inexhi, v, exp)
  {
    hide Pow, RPow, Multiple, NearestEven, Magnitude;
    RPowNext(e0, f.nbits - 1);
    RPowNext(e0, f.nbits);
    Steps(Pow(2, f.nbits - 1), r, RPow(2, e0));
    RPowOrder(f.nbits + f.emax, e0 + (f.nbits - 1));
    assert Answer(x, f, Infinite, Inexhi, v, exp, r, Grid(e0 + f.nbits, f));
  }

  lemma DenormalAnswer(x: real, f: Fpi, t: int, kind: Kind, inex: Inexact, v: nat)
    requires f.Valid() && f.nbits > 1 && Magnitude(x, t) && t - f.nbits < f.emin && 0 < v <= Pow(2, f.nbits - 1)
    requires NearestEven(x, v, RPow(2, f.emin)) && SideNamed(inex, x, Multiple(v, RPow(2, f.emin)))
    requires kind == if v == Pow(2, f.nbits - 1) then Normal else Denormal
    ensures CorrectlyRounded(x, f, kind, inex, v, f.emin)
  {
    HalvedPower(f.nbits);
    hide Pow, RPow, Multiple, NearestEven, Magnitude, SideNamed;
    RPowNext(f.emin, f.nbits);
    Steps(v, Pow(2, f.nbits), RPow(2, f.emin));
    RPowOrder(f.emin + f.nbits, f.nbits + f.emax);
    assert Answer(x, f, kind, inex, v, f.emin, v, Grid(t, f));
  }

  lemma SmallRoundsToZero(x: real, p: real)
    requires 0.0 < x < p / 2.0
    ensures NearestEven(x, 0, p)
  {
    HeldRounds(x, 0, p, 1);
  }

  lemma ZeroAnswer(x: real, f: Fpi, t: int, exp: int)
    requires f.Valid() && Magnitude(x, t) && t - f.nbits <= f.emin && NearestEven(x, 0, RPow(2, f.emin))
    ensures CorrectlyRounded(x, f, Zero, Inexlo, 0, exp)
  {
    hide Pow, RPow, NearestEven;
    assert Multiple(0, RPow(2, f.emin)) == 0.0;
    hide Multiple;
    assert RPow(2, t - 1) > 0.0;
    assert Answer(x, f, Zero, Inexlo, 0, exp, 0, Grid(t, f));
  }

  lemma LeastAnswer(x: real, f: Fpi, t: int)
    requires f.Valid() && Magnitude(x, t) && t <= f.emin && NearestEven(x, 1, RPow(2, f.emin))
    ensures CorrectlyRounded(x, f, Denormal, Inexhi, 1, f.emin)
  {
    if f.nbits > 1 {
      PowStrict(2, 0, f.nbits - 1);
    }
    hide Pow, RPow, NearestEven;
    assert Multiple(1, RPow(2, f.emin)) == RPow(2, f.emin);
    hide Multiple;
    RPowOrder(t, f.emin);
    RPowOrder(f.emin, f.nbits + f.emax);
    assert Answer(x, f, Denormal, Inexhi, 1, f.emin, 1, Grid(t, f));
  }

  /** The other of 0 and the least number is a wrong answer. */
  lemma WrongAnswer(x: real, f: Fpi, t: int, r: nat, v: nat, exp: int)
    requires f.Valid() && Magnitude(x, t) && t - f.nbits <= f.emin && NearestEven(x, r, RPow(2, f.emin)) && v <= 1
    requires v != r
    ensures !CorrectlyRounded(x, f, if v == 1 then Denormal else Zero, if v == 1 then Inexhi else Inexlo, v, exp)
  {
    hide Pow, RPow, NearestEven, Multiple;
    var kind, inex := if v == 1 then Denormal else Zero, if v == 1 then Inexhi else Inexlo;
    forall t': int, r': nat | Magnitude(x, t') && Answer(x, f, kind, inex, v, exp, r', Grid(t', f))
      ensures false
    {
      MagnitudeUnique(x, t, t');
      NearestEvenUnique(x, r, r', RPow(2, f.emin));
    }
  }

  /** What is left of the number when all its bits go: whether the half was exact. */
  lemma AllBitsGo(b: nat, n: nat, sticky: bool)
    requires HasBits(b, n)
    ensures n > 0 && b / Pow(2, n) == 0
    ensures Lost(b, n, sticky) == 2 + if sticky || b % Pow(2, n - 1) != 0 then 1 else 0
    ensures b % Pow(2, n - 1) == 0 <==> b == Pow(2, n - 1)
  {
    var h := Pow(2, n - 1);
    assert Pow(2, n) == 2 * h;
    hide Pow;
    DivSmall(b, Pow(2, n));
    QuotientIs(b, h, 1, b - h);
  }

  /** Exactly half the least number, cut off after nbits bits. */
  lemma HalfLeast(x: real, b: nat, e: int, lost: nat, f: Fpi)
    requires f.Valid() && HasBits(b, f.nbits) && Held(x, b, RPow(2, e), lost) && e + f.nbits == f.emin
    ensures b == Pow(2, f.nbits - 1) ==> (lost == 0 <==> x == RPow(2, f.emin - 1))
    ensures b == Pow(2, f.nbits - 1) ==> RPow(2, f.emin - 1) <= x < RPow(2, f.emin - 1) + RPow(2, e)
    ensures b != Pow(2, f.nbits - 1) ==> x >= RPow(2, f.emin - 1) + RPow(2, e)
  {
    var h := Pow(2, f.nbits - 1);
    hide Pow, RPow, Multiple;
    RPowNext(e, f.nbits - 1);
    assert e + (f.nbits - 1) == f.emin - 1;
    Steps(h, b, RPow(2, e));
  }

  lemma AtHalf(x: real, b: nat, e: int, lost: nat, f: Fpi, oneBit: bool)
    requires f.Valid() && HasBits(b, f.nbits) && lost <= 3 && Held(x, b, RPow(2, e), lost) && e + f.nbits == f.emin
    requires oneBit <==> f.nbits < 2 || b % Pow(2, f.nbits - 1) != 0
    ensures var sticky := lost != 0 || b % Pow(2, f.nbits - 1) != 0;
      NearestEven(x, if sticky then 1 else 0, RPow(2, f.emin)) && (Misrounds(x, f) <==> oneBit != sticky)
  {
    var n := f.nbits;
    assert n == 1 ==> Pow(2, n - 1) == 1 && b == 1;
    hide Pow, RPow, HasBits, Multiple, Lost, NearestEven;
    var sticky := lost != 0 || b % Pow(2, n - 1) != 0;
    HeldShift(x, b, RPow(2, e), lost, n);
    RPowNext(e, n);
    AllBitsGo(b, n, lost != 0);
    HeldRounds(x, 0, RPow(2, f.emin), if sticky then 3 else 2);
    HalfLeast(x, b, e, lost, f);
  }

  /** The arm where all bits go: the least number or zero, right but for the faulty case. */
  lemma TinyAnswer(x: real, b: nat, e: int, lost: nat, f: Fpi, oneBit: bool)
    requires f.Valid() && HasBits(b, f.nbits) && lost <= 3 && Held(x, b, RPow(2, e), lost) && e + f.nbits <= f.emin
    requires oneBit <==> e + f.nbits == f.emin && (f.nbits < 2 || b % Pow(2, f.nbits - 1) != 0)
    ensures x < RPow(2, f.emin)
    ensures !Misrounds(x, f) <==>
      CorrectlyRounded(x, f, if oneBit then Denormal else Zero, if oneBit then Inexhi else Inexlo,
                       if oneBit then 1 else 0, if oneBit then f.emin else 0)
  {
    hide Pow, RPow, HasBits, Multiple, NearestEven, Held, CorrectlyRounded;
    var t, v := e + f.nbits, if oneBit then 1 else 0;
    HeldMagnitude(x, b, e, lost, f.nbits);
    RPowOrder(t, f.emin);
    RPowOrder(t, f.emin - 1);
    RPowOrder(f.emin - 1, f.emin);
    if t == f.emin {
      AtHalf(x, b, e, lost, f, oneBit);
      var r := if lost != 0 || b % Pow(2, f.nbits - 1) != 0 then 1 else 0;
      if r != v {
        WrongAnswer(x, f, t, r, v, if v == 1 then f.emin else 0);
      } else if r == 1 {
        LeastAnswer(x, f, t);
      } else {
        ZeroAnswer(x, f, t, 0);
      }
    } else {
      SmallRoundsToZero(x, RPow(2, f.emin));
      ZeroAnswer(x, f, t, 0);
    }
  }

  ghost function ValueOf(b: Bigint?): nat
    requires b == null || b.Valid()
    reads b, if b == null then {} else {b.x}
  {
    if b == null then 0 else b.Value()
  }

  /** From a mantissa of n0 bits and an exponent to a number of the format. */
  method RoundTo(b0: Bigint, n0: nat, e0: int, f: Fpi, ghost x: real)
    returns (kind: Kind, inex: Inexact, b: Bigint?, exp: int, underflow: bool, overflow: bool)
    requires f.Valid() && b0.Ok() && HasBits(b0.Value(), n0) && x == Multiple(b0.Value(), RPow(2, e0))
    modifies b0, b0.x
    ensures b != null ==> b.Ok()
    ensures overflow <==> kind == Infinite
    ensures underflow <==> x < RPow(2, f.emin)
    ensures CorrectlyRounded(x, f, kind, inex, ValueOf(b), exp) <==> !Misrounds(x, f)
  {
    hide Words.Value, Pow, RPow, HasBits, Multiple, Held, NearestEven, Magnitude, Misrounds, SideNamed;
    hide CorrectlyRounded;
    var nbits := f.nbits;
    var b1, e, lost := Normalise(b0, n0, nbits, e0, x);
    ghost var v := b1.Value();
    NonZeroBits(v, nbits);
    HeldMagnitude(x, v, e, lost, nbits);
    underflow, overflow := false, false;
    if e > f.emax {
      NotTiny(x, e + nbits, f);
      TooLarge(x, f, e, v, lost);
      return Infinite, Inexhi, null, 0, false, true;
    }
    if e < f.emin {
      var n := f.emin - e;
      if n >= nbits {
        var oneBit := n == nbits;
        if oneBit && n >= 2 {
          oneBit := AnyOn(b1, n - 1);
        }
        TinyAnswer(x, v, e, lost, f, oneBit);
        if oneBit {
          NonEmpty(b1);
          b1.x[0] := 1;
          b1.wds := 1;
          ValueOne(b1.x[..1]);
          return Denormal, Inexhi, b1, f.emin, true, false;
        }
        return Zero, Inexlo, null, 0, true, false;
      }
      NotTiny(x, e + nbits, f);
      b, kind, inex := RoundDenormal(b1, e, lost, nbits, f.emin, x);
      exp := f.emin;
      DenormalAnswer(x, f, e + nbits, kind, inex, b.Value());
      return;
    }
    NotTiny(x, e + nbits, f);
    ghost var r;
    kind := Normal;
    ghost var g := e;
    b, e, inex, r := RoundNormal(b1, e, lost, nbits, x);
    if e > f.emax {
      OverflowAnswer(x, f, g, 0, 0, r);
      return Infinite, Inexhi, null, 0, false, true;
    }
    exp := e;
    NormalAnswer(x, f, g, inex, b.Value(), e, r);
  }

  lemma TooLarge(x: real, f: Fpi, e: int, v: nat, lost: nat)
    requires f.Valid() && e > f.emax && HasBits(v, f.nbits) && Held(x, v, RPow(2, e), lost) && Magnitude(x, e + f.nbits)
    ensures CorrectlyRounded(x, f, Infinite, Inexhi, 0, 0)
  {
    hide Pow, RPow, Multiple, Held, NearestEven, Magnitude, CorrectlyRounded;
    HeldRounds(x, v, RPow(2, e), lost);
    OverflowAnswer(x, f, e, 0, 0, if RoundsUp(v, lost) then v + 1 else v);
  }

  /** The digits of the text as a number. */
  function TextDigits(s: string): nat
    requires |s| >= 2
  {
    var m := ReadMantissa(s);
    HexValue(m.whole + m.fraction)
  }

  /** The number the text stands for: its digits, each one after the point a sixteenth, times a power of two. */
  ghost function TextReal(s: string): real
    requires |s| >= 2
  {
    var m := ReadMantissa(s);
    Multiple(TextDigits(s), RPow(2, ReadExponent(s, m.end).value - 4 * |m.fraction|))
  }

  // ----- exponents that are no longer read -----

  /** x cut off to a multiple of p. */
  lemma Nearby(x: real, p: real) returns (v: nat, lost: nat)
    requires x >= 0.0 && p > 0.0
    ensures lost <= 3 && Held(x, v, p, lost)
  {
    var q := x / p;
    RCancel(0.0, q, p);
    v := q.Floor;
    CutOff(x, q, v, p);
    hide Multiple;
    var vp := Multiple(v, p);
    lost := if x == vp then 0 else if x < vp + p / 2.0 then 1 else if x == vp + p / 2.0 then 2 else 3;
  }

  lemma CutOff(x: real, q: real, v: nat, p: real)
    requires p > 0.0 && q * p == x && v as real <= q < v as real + 1.0
    ensures Multiple(v, p) <= x < Multiple(v, p) + p
  {
    BetweenSteps(x, q, v as real, v as real + 1.0, p);
    RDistribute(v as real, 1.0, p);
  }

  lemma BetweenSteps(x: real, q: real, a: real, b: real, p: real)
    requires p > 0.0 && q * p == x && a <= q < b
    ensures a * p <= x < b * p
  {
    RCancel(a, q, p);
    RCancel(q, b, p);
  }

  lemma {:induction false} BitsExist(v: nat) returns (n: nat)
    requires v > 0
    ensures HasBits(v, n)
  {
    if v == 1 {
      n := 1;
    } else {
      var m := BitsExist(v / 2);
      n := m + 1;
      TwicePower(m);
    }
  }

  lemma TwicePower(m: nat)
    requires m > 0
    ensures Pow(2, m + 1) == 2 * Pow(2, m) == 4 * Pow(2, m - 1)
  {
  }

  lemma DigitsMagnitude(v: nat, e: int) returns (t: int)
    requires v > 0
    ensures Magnitude(Multiple(v, RPow(2, e)), t)
  {
    hide Pow, RPow, Multiple, Magnitude;
    var n := BitsExist(v);
    NonZeroBits(v, n);
    HeldMagnitude(Multiple(v, RPow(2, e)), v, e, 0, n);
    t := e + n;
  }

  lemma NearestZero(x: real, p: real)
    requires 0.0 < x && p > 0.0
    ensures NearestEven(x, 0, p) <==> x <= p / 2.0
  {
    assert Multiple(0, p) == 0.0 && Multiple(1, p) == p;
    hide Multiple;
    if x <= p / 2.0 {
      HeldRounds(x, 0, p, if x < p / 2.0 then 1 else 2);
    } else {
      assert Distance(Multiple(0, p), x) > Distance(Multiple(1, p), x);
    }
  }

  lemma HalfPower(e: int)
    ensures RPow(2, e - 1) == RPow(2, e) / 2.0 > 0.0
  {
    hide RPow;
    assert Pow(2, 1) == 2;
    RPowNext(e - 1, 1);
  }

  /** Zero is the right answer up to half the least number. */
  lemma ZeroRight(x: real, f: Fpi, t: int)
    requires f.Valid() && Magnitude(x, t)
    ensures CorrectlyRounded(x, f, Zero, Inexlo, 0, 0) <==> x <= RPow(2, f.emin - 1)
  {
    HalfPower(f.emin);
    HalfPower(t);
    hide RPow, NearestEven, Multiple;
    NearestZero(x, RPow(2, f.emin));
    if x <= RPow(2, f.emin - 1) {
      RPowOrder(f.emin, t - 1);
      ZeroAnswer(x, f, t, 0);
    } else if CorrectlyRounded(x, f, Zero, Inexlo, 0, 0) {
      OnlyZero(x, f, t);
      var g := Grid(t, f);
      NearestZero(x, RPow(2, g));
      HalfPower(g);
      RPowOrder(g - 1, t - 1);
      RPowOrder(g, t - 1);
      assert false;
    }
  }

  lemma OnlyZero(x: real, f: Fpi, t: int)
    requires f.Valid() && Magnitude(x, t) && CorrectlyRounded(x, f, Zero, Inexlo, 0, 0)
    ensures NearestEven(x, 0, RPow(2, Grid(t, f)))
  {
    hide RPow, NearestEven, Multiple, Magnitude;
    var t', r :| Magnitude(x, t') && Answer(x, f, Zero, Inexlo, 0, 0, r, Grid(t', f));
    MagnitudeUnique(x, t, t');
  }

  lemma OnlyInfinite(x: real, f: Fpi, t: int) returns (r: nat)
    requires f.Valid() && Magnitude(x, t) && CorrectlyRounded(x, f, Infinite, Inexhi, 0, 0)
    ensures var p := RPow(2, Grid(t, f)); NearestEven(x, r, p) && Multiple(r, p) >= RPow(2, f.nbits + f.emax)
  {
    hide RPow, NearestEven, Multiple, Magnitude;
    var t', r' :| Magnitude(x, t') && Answer(x, f, Infinite, Inexhi, 0, 0, r', Grid(t', f));
    MagnitudeUnique(x, t, t');
    r := r';
  }

  /** Half a place above the largest number. */
  ghost function Top(f: Fpi): real
  {
    RPow(2, f.nbits + f.emax) - RPow(2, f.emax - 1)
  }

  /** The nearest multiple is at most half a step above. */
  lemma NearestAbove(x: real, r: int, p: real)
    requires p > 0.0 && NearestEven(x, r, p)
    ensures Multiple(r, p) <= x + p / 2.0
  {
    Next(r - 1, p);
    hide Multiple;
    assert Distance(Multiple(r, p), x) <= Distance(Multiple(r - 1, p), x);
  }

  /** Infinity is the right answer from there on. */
  lemma InfiniteRight(x: real, f: Fpi, t: int)
    requires f.Valid() && Magnitude(x, t)
    ensures CorrectlyRounded(x, f, Infinite, Inexhi, 0, 0) <==> x >= Top(f)
  {
    hide RPow, Magnitude, NearestEven, Multiple, Pow;
    var n, m, g := f.nbits, f.emax, Grid(t, f);
    HalfPower(m);
    if t <= n + m {
      RPowOrder(g, m);
      if x >= Top(f) {
        BelowTop(x, f, t);
        TopRounds(x, f);
      } else if CorrectlyRounded(x, f, Infinite, Inexhi, 0, 0) {
        var r := OnlyInfinite(x, f, t);
        NearestAbove(x, r, RPow(2, g));
        assert false;
      }
    } else {
      MagnitudeIs(x, t);
      RPowOrder(n + m, t - 1);
      BeyondTop(x, f, t);
    }
  }

  lemma MagnitudeIs(x: real, t: int)
    requires Magnitude(x, t)
    ensures 0.0 < RPow(2, t - 1) <= x < RPow(2, t)
  {
    hide RPow;
  }

  /** A number that rounds to infinity has the largest magnitude at least. */
  lemma BelowTop(x: real, f: Fpi, t: int)
    requires f.Valid() && Magnitude(x, t) && t <= f.nbits + f.emax && x >= Top(f)
    ensures t == f.nbits + f.emax
  {
    hide RPow;
    HalfPower(f.nbits + f.emax);
    RPowOrder(f.emax - 1, f.nbits + f.emax - 1);
    if t < f.nbits + f.emax {
      RPowOrder(t, f.nbits + f.emax - 1);
      RPowOrder(f.emax - 1, f.nbits + f.emax - 1);
    }
  }

  lemma OddTop(n: nat)
    requires n > 0
    ensures Pow(2, n) > 0 && (Pow(2, n) - 1) % 2 == 1
  {
  }

  lemma TopRounds(x: real, f: Fpi)
    requires f.Valid() && Magnitude(x, f.nbits + f.emax) && x >= Top(f)
    ensures CorrectlyRounded(x, f, Infinite, Inexhi, 0, 0)
  {
    var n, m := f.nbits, f.emax;
    HalfPower(m);
    OddTop(n);
    hide RPow, NearestEven, Pow;
    var p, v := RPow(2, m), Pow(2, n) - 1;
    RPowNext(m, n);
    Next(v, p);
    MagnitudeIs(x, n + m);
    hide Magnitude, Multiple, CorrectlyRounded;
    assert m + n == n + m;
    var lost := if x == Multiple(v, p) + p / 2.0 then 2 else 3;
    HeldRounds(x, v, p, lost);
    OverflowAnswer(x, f, m, 0, 0, Pow(2, n));
  }

  lemma BeyondTop(x: real, f: Fpi, t: int)
    requires f.Valid() && Magnitude(x, t) && t > f.nbits + f.emax
    ensures CorrectlyRounded(x, f, Infinite, Inexhi, 0, 0)
  {
    hide RPow, NearestEven, Pow;
    MagnitudeIs(x, t);
    hide Magnitude, Multiple, CorrectlyRounded, Held;
    var e := t - f.nbits;
    var v, lost := Nearby(x, RPow(2, e));
    HeldRounds(x, v, RPow(2, e), lost);
    RPowNext(e, f.nbits - 1);
    assert e + (f.nbits - 1) == t - 1;
    HeldAbove(x, v, RPow(2, e), lost, Pow(2, f.nbits - 1));
    OverflowAnswer(x, f, e, 0, 0, if RoundsUp(v, lost) then v + 1 else v);
  }

  lemma HeldAbove(x: real, v: nat, p: real, lost: nat, w: nat)
    requires p > 0.0 && Held(x, v, p, lost) && Multiple(w, p) <= x
    ensures w <= v
  {
    Next(v, p);
    Steps(v + 1, w, p);
    hide Multiple;
  }

  /** The least exponent that is no longer read. */
  const FAR := 0x5000_0000

  /** The text is short and the format narrow against such exponents. */
  predicate Near(s: string, f: Fpi)
  {
    f.nbits + f.emax + 4 * |s| <= FAR && 4 * |s| - FAR < f.emin
  }

  lemma BigIsFar(s: string, i: nat)
    requires i <= |s| && ReadExponent(s, i).big
    ensures var x := ReadExponent(s, i); if x.negative then x.value <= -FAR else x.value >= FAR
  {
    hide DigitsValue, DecimalEnd, IsDigit;
    var negative := At(s, i + 1) == '-';
    var j := if negative || At(s, i + 1) == '+' then i + 2 else i + 1;
    var k := DecimalEnd(s, j);
    RunOfDigits(s, j, k);
    HexText.NextDigit(s, j, k - 1);
  }

  lemma RunOfDigits(s: string, j: nat, k: nat)
    requires j < |s| && IsDigit(At(s, j)) && k == DecimalEnd(s, j)
    ensures j < k <= |s| && AllDigits(s[j..k]) && s[j..k - 1 + 1] == s[j..k]
  {
  }

  lemma {:induction false} HexValueBelow(t: string)
    requires AllHex(t)
    ensures HexValue(t) < Pow(2, 4 * |t|)
  {
    if |t| > 0 {
      HexValueBelow(t[..|t| - 1]);
      SixteenTimes(|t| - 1);
      hide Pow;
    }
  }

  lemma SixteenTimes(n: nat)
    ensures Pow(2, 4 * (n + 1)) == 16 * Pow(2, 4 * n)
  {
    PowAdd(2, 4, 4 * n);
    assert Pow(2, 4) == 16;
  }

  lemma MantissaFits(s: string)
    requires |s| >= 2
    ensures var m := ReadMantissa(s); |m.whole| + |m.fraction| <= |s| && AllHex(m.whole + m.fraction)
  {
  }

  /** How large and how small the number of a text can be. */
  lemma TextBounds(s: string)
    requires |s| >= 2 && TextDigits(s) > 0
    ensures var v := ReadExponent(s, ReadMantissa(s).end).value;
      RPow(2, v - 4 * |s|) <= TextReal(s) < RPow(2, v + 4 * |s|)
  {
    hide *;
    MantissaFits(s);
    var m := ReadMantissa(s);
    var v := ReadExponent(s, m.end).value;
    var d, e := TextDigits(s), v - 4 * |m.fraction|;
    TextIs(s);
    HexValueBelow(m.whole + m.fraction);
    PlaceBounds(2, d, 4 * (|m.whole| + |m.fraction|), e);
    MultipleIs(d, e);
    RPowOrder(v - 4 * |s|, e);
    RPowOrder(4 * (|m.whole| + |m.fraction|) + e, v + 4 * |s|);
  }

  lemma TextIs(s: string)
    requires |s| >= 2
    ensures var m := ReadMantissa(s);
      TextDigits(s) == HexValue(m.whole + m.fraction) &&
      TextReal(s) == Multiple(TextDigits(s), RPow(2, ReadExponent(s, m.end).value - 4 * |m.fraction|))
  {
    hide HexValue, ReadExponent, ReadMantissa, Multiple, RPow;
  }

  lemma MultipleIs(d: nat, e: int)
    ensures Multiple(d, RPow(2, e)) == Placed(2, d, e)
  {
    hide RPow;
  }

  /** The answer when the exponent is not read: zero or infinity. */
  lemma FarAnswer(s: string, f: Fpi)
    requires |s| >= 2 && f.Valid() && TextDigits(s) > 0
    ensures var x, w := TextReal(s), ReadExponent(s, ReadMantissa(s).end);
      w.big && w.negative ==> (CorrectlyRounded(x, f, Zero, Inexlo, 0, 0) <==> x <= RPow(2, f.emin - 1))
    ensures var x, w := TextReal(s), ReadExponent(s, ReadMantissa(s).end);
      w.big && !w.negative ==> (CorrectlyRounded(x, f, Infinite, Inexhi, 0, 0) <==> x >= Top(f))
    ensures var x, w := TextReal(s), ReadExponent(s, ReadMantissa(s).end);
      w.big && Near(s, f) ==>
        !Misrounds(x, f) &&
        if w.negative then x < RPow(2, f.emin - 1) < RPow(2, f.emin) else x >= Top(f) && x >= RPow(2, f.emin)
  {
    hide *;
    var w := ReadExponent(s, ReadMantissa(s).end);
    if w.big {
      BigIsFar(s, ReadMantissa(s).end);
      var t := TextMagnitude(s);
      ZeroRight(TextReal(s), f, t);
      InfiniteRight(TextReal(s), f, t);
      if Near(s, f) {
        TextBounds(s);
        NearMeans(s, f, w.value, TextReal(s));
      }
    }
  }

  lemma TextMagnitude(s: string) returns (t: int)
    requires |s| >= 2 && TextDigits(s) > 0
    ensures Magnitude(TextReal(s), t)
  {
    hide *;
    TextIs(s);
    t := DigitsMagnitude(TextDigits(s), ReadExponent(s, ReadMantissa(s).end).value - 4 * |ReadMantissa(s).fraction|);
  }

  lemma NearMeans(s: string, f: Fpi, v: int, x: real)
    requires f.Valid() && Near(s, f) && RPow(2, v - 4 * |s|) <= x < RPow(2, v + 4 * |s|)
    ensures v <= -FAR ==> x < RPow(2, f.emin - 1) < RPow(2, f.emin) && !Misrounds(x, f)
    ensures v >= FAR ==> x >= Top(f) && x >= RPow(2, f.emin) && !Misrounds(x, f)
  {
    hide RPow;
    HalfPower(f.emin);
    if v <= -FAR {
      RPowOrder(v + 4 * |s|, f.emin - 1);
    }
    if v >= FAR {
      RPowOrder(f.nbits + f.emax, v - 4 * |s|);
      RPowOrder(f.emin, f.nbits + f.emax);
      RPowOrder(f.emin - f.nbits, f.emin - 1);
    }
  }

  /** Reads the hexadecimal number that follows 0x at the start of s. */
  method GetHex(s: string, f: Fpi)
    returns (end: nat, kind: Kind, inex: Inexact, b: Bigint?, exp: int, underflow: bool, overflow: bool)
    requires |s| >= 2 && f.Valid()
    ensures var m := ReadMantissa(s);
      end == if m.whole == "" && m.fraction == "" then 1 else ReadExponent(s, m.end).end
    ensures b != null ==> b.Ok()
    ensures TextDigits(s) == 0 ==> kind == Zero && inex == Exact && b == null && !underflow && !overflow
    ensures var x := ReadExponent(s, ReadMantissa(s).end);
      TextDigits(s) != 0 && x.big ==>
        b == null && (if x.negative then kind == Zero && inex == Inexlo && underflow && !overflow
                      else kind == Infinite && inex == Inexhi && overflow && !underflow) &&
        (CorrectlyRounded(TextReal(s), f, kind, inex, ValueOf(b), exp) <==>
          if x.negative then TextReal(s) <= RPow(2, f.emin - 1) else TextReal(s) >= Top(f))
    ensures var x := TextReal(s);
      TextDigits(s) != 0 && (ReadExponent(s, ReadMantissa(s).end).big ==> Near(s, f)) ==>
        (overflow <==> kind == Infinite) && (underflow <==> x < RPow(2, f.emin)) &&
        (CorrectlyRounded(x, f, kind, inex, ValueOf(b), exp) <==> !Misrounds(x, f))
  {
    hide Words.Value, Pow, RPow, HasBits, Multiple, HexValue, Strip, Misrounds, CorrectlyRounded, ReadExponent, Near;
    hide Top;
    var havedig, zret, s0, s1, e := ScanMantissa(s);
    var e1, big, esign, e2 := ScanExponent(s, s1);
    end := if havedig == 0 then s0 - 1 else e2;
    b, exp, underflow, overflow := null, 0, false, false;
    if zret {
      kind, inex := Zero, Exact;
      return;
    }
    if big {
      FarAnswer(s, f);
      if esign {
        kind, inex, underflow := Zero, Inexlo, true;
      } else {
        kind, inex, overflow := Infinite, Inexhi, true;
      }
      return;
    }
    e := e + e1;
    var b0, n := Pack(s, s0, s1);
    kind, inex, b, exp, underflow, overflow := RoundTo(b0, n, e, f, TextReal(s));
  }
}
