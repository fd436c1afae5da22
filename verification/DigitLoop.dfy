/** The digit loop of gdtoa in mode 0, rounding to nearest: quotient digits until the decimal lies in
    the gap, and the choice between the last digit and the one above it. */
module DigitLoop {
  import opened Words
  import opened Bigints
  import opened Differences
  import opened Quorems
  import opened Shifts
  import opened ShortestDecimal
  import opened Digits

  datatype Inexact = Exact | Inexlo | Inexhi

  /** What one round of the loop decides: go on, end with this digit, or end by rounding a 9 up. */
  datatype Verdict = More | Last(dig: nat, inex: Inexact) | Nine

  function Sign(x: int): int
  {
    if x < 0 then -1 else if x > 0 then 1 else 0
  }

  /** cmp(b, S - mhi), taken as positive when S is below mhi. An empty zero compares below a one-word zero. */
  function UpperSign(r: nat, S: nat, hi: nat, empty: bool): int
  {
    if r + hi == S && empty then -1 else Sign(r + hi - S)
  }

  /** The decision on integers: dig is the digit, r what is left of b, lo and hi the gaps at this digit. */
  function Judge(dig: nat, r: nat, S: nat, lo: nat, hi: nat, even: bool, empty: bool): Verdict
  {
    var j, j1 := Sign(r - lo), UpperSign(r, S, hi, empty);
    var low := if r != 0 then Inexlo else Exact;
    if j1 == 0 && even then
      if dig == 9 then Nine
      else if j <= 0 then Last(dig, low)
      else Last(dig + 1, Inexhi)
    else if j < 0 || (j == 0 && even) then
      if j1 > 0 then
        var up := 2 * r > S || (2 * r == S && dig % 2 == 1);
        if up && dig == 9 then Nine
        else Last(if up then dig + 1 else dig, if r != 0 then Inexlo else Inexhi)
      else Last(dig, low)
    else if j1 > 0 then
      if dig == 9 then Nine else Last(dig + 1, Inexhi)
    else More
  }

  /** The numbers of the loop are apart in memory, except that mlo and mhi may be one number. */
  ghost predicate Apart(b: Bigint, S: Bigint, mlo: Bigint, mhi: Bigint)
  {
    b != S && b.x != S.x && b != mlo && b.x != mlo.x && b != mhi && b.x != mhi.x &&
    S != mlo && S.x != mlo.x && S != mhi && S.x != mhi.x &&
    (mlo == mhi || mlo.x != mhi.x)
  }

  ghost predicate Ready(b: Bigint, S: Bigint, mlo: Bigint, mhi: Bigint)
    reads b, b.x, S, S.x, mlo, mlo.x, mhi, mhi.x
  {
    b.Ok() && S.Ok() && mlo.Ok() && mhi.Ok() && Apart(b, S, mlo, mhi) &&
    TopWord28(S) && b.k >= 1 && 0 < mlo.Value() <= mhi.Value() && b.Value() < 10 * S.Value()
  }

  method IsNonZero(b: Bigint) returns (r: bool)
    requires b.Ok()
    ensures r <==> b.Value() != 0
  {
    hide Words.Value;
    r := b.wds > 1 || b.x[0] != 0;
    if b.wds == 0 {
      ValueZeros(b.x[..0]);
    } else if b.wds == 1 {
      ValueOne(b.x[..1]);
    } else {
      TopWordWeighs(b.x[..b.wds]);
    }
  }

  /** j1 of the loop: where b stands against S - mhi. */
  method CompareUpper(b: Bigint, S: Bigint, mhi: Bigint) returns (j1: int)
    requires b.Ok() && S.Ok() && mhi.Ok() && S.wds > 0 && mhi.wds > 0
    ensures Sign(j1) == UpperSign(b.Value(), S.Value(), mhi.Value(), b.wds == 0)
  {
    hide Words.Value;
    var delta := Diff(S, mhi);
    if delta.sign != 0 {
      return 1;
    }
    j1 := Cmp(b, delta);
    if delta.Value() == 0 {
      ZeroIsShort(delta);
      if b.Value() == 0 {
        ZeroIsShort(b);
      }
    }
    if b.wds == 0 {
      ValueZeros(b.x[..0]);
    }
  }

  /** The verdict when both the digit and the next one are in the gap: the nearer of the two. */
  method NearerDigit(b: Bigint, S: Bigint, dig: nat) returns (v: Verdict)
    requires b.Ok() && S.Ok() && b.k >= 1 && S.Value() > 0
    ensures v == var r := b.Value();
      var up := 2 * r > S.Value() || (2 * r == S.Value() && dig % 2 == 1);
      if up && dig == 9 then Nine
      else Last(if up then dig + 1 else dig, if r != 0 then Inexlo else Inexhi)
  {
    hide Words.Value;
    assert Pow(2, 1) == 2;
    PowMono(2, 1, b.k);
    NonEmpty(S);
    var b2 := LShift(b, 1);
    var j1 := Cmp(b2, S);
    var d := dig;
    if j1 > 0 || (j1 == 0 && dig % 2 == 1) {
      if dig == 9 {
        return Nine;
      }
      d := dig + 1;
    }
    var inex := Inexhi;
    var nonZero := IsNonZero(b2);
    if nonZero {
      inex := Inexlo;
    }
    v := Last(d, inex);
  }

  /** The tests of one round, on the remainder in b. */
  method JudgeDigit(b: Bigint, S: Bigint, mlo: Bigint, mhi: Bigint, even: bool, dig: nat) returns (v: Verdict)
    requires Ready(b, S, mlo, mhi)
    ensures v == Judge(dig, b.Value(), S.Value(), mlo.Value(), mhi.Value(), even, b.wds == 0)
  {
    hide Words.Value, Pow;
    NonEmpty(mlo);
    NonEmpty(mhi);
    var j := Cmp(b, mlo);
    var j1 := CompareUpper(b, S, mhi);
    var nonZero := IsNonZero(b);
    if j1 == 0 && even {
      if dig == 9 {
        return Nine;
      }
      if j <= 0 {
        return Last(dig, if nonZero then Inexlo else Exact);
      }
      return Last(dig + 1, Inexhi);
    }
    if j < 0 || (j == 0 && even) {
      if j1 > 0 {
        v := NearerDigit(b, S, dig);
        return;
      }
      return Last(dig, if nonZero then Inexlo else Exact);
    }
    if j1 > 0 {
      return if dig == 9 then Nine else Last(dig + 1, Inexhi);
    }
    v := More;
  }

  /** One round: takes the next digit off b and judges it. */
  method Round(b: Bigint, S: Bigint, mlo: Bigint, mhi: Bigint, even: bool) returns (dig: nat, v: Verdict)
    requires Ready(b, S, mlo, mhi)
    modifies b`wds, b.x
    ensures Ready(b, S, mlo, mhi)
    ensures dig == old(b.Value()) / S.Value() <= 9 && b.Value() == old(b.Value()) % S.Value()
    ensures v == Judge(dig, b.Value(), S.Value(), mlo.Value(), mhi.Value(), even, b.wds == 0)
    ensures dig > 0 ==> (b.wds == 0 <==> b.Value() == 0 && S.wds == 1)
    ensures b.wds == 0 ==> b.Value() == 0
  {
    hide Words.Value, Pow, Judge;
    NonEmpty(S);
    dig := Quorem(b, S);
    v := JudgeDigit(b, S, mlo, mhi, even, dig);
    if b.wds == 0 {
      ValueZeros(b.x[..0]);
    }
  }

  /** The digits of N/S before position f, as one number, and what is left of it there. */
  function DigitsAt(g: Gap, f: nat): (D: int)
    requires g.S > 0
  {
    g.N * Pow(10, f) / g.S
  }

  function RestAt(g: Gap, f: nat): (r: nat)
    requires g.S > 0
  {
    g.N * Pow(10, f) % g.S
  }

  /** N/S has the units digit 9, the even end of the upper gap falls exactly on 10, and yet 9 is in the gap and
      nearer. Rounding the 9 up would then not be the nearest choice; no binary number has such a gap. */
  ghost predicate TiesAtTen(g: Gap)
    requires g.S > 0
  {
    var r := RestAt(g, 0);
    g.even && DigitsAt(g, 0) == 9 && r + g.hi == g.S && r <= g.lo && 2 * r < g.S
  }

  /** The number is an odd multiple of its upper gap. It could lie halfway between two decimals and reach both with
      the very ends of its gap, where the loop looks at the lower one alone; no binary number does. */
  ghost predicate OddGaps(g: Gap)
    requires g.hi > 0
  {
    g.N % g.hi == 0 && g.N / g.hi % 2 == 1
  }

  /** The gap is one that the set-up can prepare. */
  ghost predicate Binary(g: Gap)
  {
    g.Valid() && !TiesAtTen(g) && !OddGaps(g)
  }

  /** The cases in which the flag names the wrong side: both the digit and the next one are in the
      gap, the upper one strictly, and either the upper one is taken or nothing is left over. */
  ghost predicate FlagMisnames(g: Gap, f: nat)
    requires g.S > 0
  {
    var D, r := DigitsAt(g, f), RestAt(g, f);
    In(g, D, f) && g.S - r < g.hi * Pow(10, f) &&
    (r == 0 || (D % 10 != 9 && (2 * r > g.S || (2 * r == g.S && D % 2 == 1))))
  }

  /** The flag for X / 10^f: right but for the listed cases, where what is exact is called too high, and the rest
      too low. */
  ghost predicate FlagIs(inex: Inexact, g: Gap, f: nat, X: int)
    requires g.S > 0
  {
    (FlagNames(inex, g, f, X) <==> !FlagMisnames(g, f)) &&
    (FlagMisnames(g, f) ==> inex == if FlagNames(Exact, g, f, X) then Inexhi else Inexlo)
  }

  /** The flag says on which side of N/S the decimal X/10^f lies. */
  ghost predicate FlagNames(inex: Inexact, g: Gap, f: nat, X: int)
  {
    match inex
    case Exact => X * g.S == g.N * Pow(10, f)
    case Inexlo => X * g.S < g.N * Pow(10, f)
    case Inexhi => X * g.S > g.N * Pow(10, f)
  }

  lemma SplitIs(g: Gap, f: nat, D: nat, r: nat)
    requires g.S > 0 && Split(g, f, D, r)
    ensures r < g.S && D == DigitsAt(g, f) && r == RestAt(g, f)
  {
    QuotientIs(g.N * Pow(10, f), g.S, D, r);
  }

  predicate Below(r: nat, l: nat, even: bool)
  {
    if even then r <= l else r < l
  }

  lemma MoreFacts(dig: nat, r: nat, S: nat, l: nat, h: nat, even: bool, empty: bool)
    requires r < S && 0 < l <= h && (empty ==> r == 0)
    requires Judge(dig, r, S, l, h, even, empty) == More
    ensures !Below(r, l, even) && !Below(S - r, h, even) && 2 * l <= S && l < S
  {
  }

  /** Going on is right only when the whole grid misses the gap. */
  lemma MoreMissesGrid(g: Gap, f: nat, D: nat, dig: nat, r: nat, empty: bool)
    requires g.Valid() && Split(g, f, D, r)
    requires Judge(dig, r, g.S, g.lo * Pow(10, f), g.hi * Pow(10, f), g.even, empty) == More
    requires empty ==> r == 0
    ensures NoneOnGrid(g, f) && 2 * (g.lo * Pow(10, f)) <= g.S && g.lo * Pow(10, f) < g.S
  {
    hide In, Judge, NoneOnGrid;
    LowIn(g, f, D, r);
    HighIn(g, f, D, r);
    MulPos(g.lo, Pow(10, f));
    MulMono(Pow(10, f), g.lo, g.hi);
    MoreFacts(dig, r, g.S, g.lo * Pow(10, f), g.hi * Pow(10, f), g.even, empty);
    GridEmpty(g, f, D, r);
  }

  /** The verdict Last in terms of the remainder alone: l and h are the gaps at this digit. */
  lemma LastFacts(dig: nat, r: nat, S: nat, l: nat, h: nat, even: bool, empty: bool, d: nat, inex: Inexact)
    requires r < S && 0 < l <= h && (empty ==> r == 0) && dig <= 9
    requires Judge(dig, r, S, l, h, even, empty) == Last(d, inex)
    ensures d == dig ==>
      Below(r, l, even) &&
      (2 * r < S || (2 * r == S && (dig % 2 == 0 || 2 * h == S)) || !Below(S - r, h, even))
    ensures d != dig ==>
      d == dig + 1 <= 9 && Below(S - r, h, even) &&
      (2 * r > S || (2 * r == S && dig % 2 == 1) || !Below(r, l, even))
    ensures var misnamed := Below(r, l, even) && S - r < h &&
      (r == 0 || (dig != 9 && (2 * r > S || (2 * r == S && dig % 2 == 1))));
      (!misnamed <==> inex == if d != dig then Inexhi else if r == 0 then Exact else Inexlo) &&
      (misnamed ==> (d == dig <==> r == 0) && inex == if r == 0 then Inexhi else Inexlo)
  {
  }

  /** The digit the loop ends with gives a decimal in the gap, as near as any with its digits. */
  lemma LastIsNearest(g: Gap, f: nat, D: nat, dig: nat, r: nat, empty: bool, d: nat, inex: Inexact)
    requires g.Valid() && Split(g, f, D, r) && dig == D % 10 && !OddGaps(g)
    requires Judge(dig, r, g.S, g.lo * Pow(10, f), g.hi * Pow(10, f), g.even, empty) == Last(d, inex)
    requires empty ==> r == 0
    ensures dig <= d <= dig + 1 && d <= 9
    ensures In(g, D - dig + d, f) && Nearest(g, f, D - dig + d)
  {
    hide Nearest, In, Judge, Split;
    LowIn(g, f, D, r);
    HighIn(g, f, D, r);
    MulPos(g.lo, Pow(10, f));
    MulMono(Pow(10, f), g.lo, g.hi);
    SplitIs(g, f, D, r);
    LastFacts(dig, r, g.S, g.lo * Pow(10, f), g.hi * Pow(10, f), g.even, empty, d, inex);
    Parity(D);
    if 2 * r == g.S && 2 * (g.hi * Pow(10, f)) == g.S {
      HalfwayIsOdd(g, f, D, r);
      assert false;
    }
    if d == dig {
      LowIsNearest(g, f, D, r);
    } else {
      HighIsNearest(g, f, D, r);
    }
  }

  /** Halfway between two decimals, with half their distance for gap, a number is an odd multiple of the gap. */
  lemma HalfwayIsOdd(g: Gap, f: nat, D: nat, r: nat)
    requires g.Valid() && Split(g, f, D, r) && 2 * r == g.S && 2 * (g.hi * Pow(10, f)) == g.S
    ensures OddGaps(g)
  {
    hide *;
    var p := Pow(10, f);
    HalfwayFacts(g, f, D, r);
    MulAssoc(2 * D + 1, g.hi, p);
    OrderScales(g.N, (2 * D + 1) * g.hi, p);
    OrderScales((2 * D + 1) * g.hi, g.N, p);
    OddQuotient(g, D);
  }

  lemma HalfwayFacts(g: Gap, f: nat, D: nat, r: nat)
    requires g.Valid() && Split(g, f, D, r) && 2 * r == g.S && 2 * (g.hi * Pow(10, f)) == g.S
    ensures g.hi > 0 && Pow(10, f) > 0 && g.N * Pow(10, f) == (2 * D + 1) * (g.hi * Pow(10, f))
  {
    hide Pow;
    var h := g.hi * Pow(10, f);
    Doubled(D, h);
    assert g.S == 2 * h && r == h;
  }

  lemma Doubled(D: nat, h: int)
    ensures D * (2 * h) + h == (2 * D + 1) * h
  {
    MulAssoc(D, 2, h);
    Distribute(h, 2 * D, 1);
  }

  lemma OddQuotient(g: Gap, D: nat)
    requires g.hi > 0 && g.N == (2 * D + 1) * g.hi
    ensures OddGaps(g)
  {
    QuotientIs(g.N, g.hi, 2 * D + 1, 0);
    OddIs(2 * D + 1, D);
  }

  lemma OddIs(x: nat, q: nat)
    requires x == 2 * q + 1
    ensures x % 2 == 1
  {
  }

  /** The flag of the last digit is right except in the cases listed. */
  lemma LastFlag(g: Gap, f: nat, D: nat, dig: nat, r: nat, empty: bool, d: nat, inex: Inexact)
    requires g.Valid() && Split(g, f, D, r) && dig == D % 10
    requires Judge(dig, r, g.S, g.lo * Pow(10, f), g.hi * Pow(10, f), g.even, empty) == Last(d, inex)
    requires empty ==> r == 0
    ensures FlagIs(inex, g, f, D - dig + d)
  {
    hide *;
    var l, h, X := g.lo * Pow(10, f), g.hi * Pow(10, f), if d == dig then D else D + 1;
    LowIn(g, f, D, r);
    GapsGrow(g, f);
    ValidGap(g);
    SplitIs(g, f, D, r);
    LastFacts(dig, r, g.S, l, h, g.even, empty, d, inex);
    FlagAt(g, f, D, r, X, inex);
    FlagAt(g, f, D, r, X, Exact);
    FlagOf(g, f, D, r, l, h, d, inex);
  }

  lemma ValidGap(g: Gap)
    requires g.Valid()
    ensures g.S > 0 && g.hi > 0
  {
  }

  lemma GapsGrow(g: Gap, f: nat)
    requires g.Valid()
    ensures 0 < g.lo * Pow(10, f) <= g.hi * Pow(10, f)
  {
    hide Pow;
    MulPos(g.lo, Pow(10, f));
    MulMono(Pow(10, f), g.lo, g.hi);
  }

  /** The flag from the remainder, once it is known which decimal is taken. */
  lemma FlagOf(g: Gap, f: nat, D: nat, r: nat, l: nat, h: nat, d: nat, inex: Inexact)
    requires g.S > 0 && D == DigitsAt(g, f) && r == RestAt(g, f) < g.S && h == g.hi * Pow(10, f)
    requires In(g, D, f) <==> if g.even then r <= l else r < l
    requires d == D % 10 || d == D % 10 + 1 <= 9
    requires var right := if d != D % 10 then Inexhi else if r == 0 then Exact else Inexlo;
      (FlagNames(inex, g, f, D - D % 10 + d) <==> inex == right) &&
      (FlagNames(Exact, g, f, D - D % 10 + d) <==> Exact == right)
    requires var dig := D % 10;
      var misnamed := Below(r, l, g.even) && g.S - r < h &&
        (r == 0 || (dig != 9 && (2 * r > g.S || (2 * r == g.S && dig % 2 == 1))));
      (!misnamed <==> inex == if d != dig then Inexhi else if r == 0 then Exact else Inexlo) &&
      (misnamed ==> (d == dig <==> r == 0) && inex == if r == 0 then Inexhi else Inexlo)
    ensures FlagIs(inex, g, f, D - D % 10 + d)
  {
    hide In, FlagNames, DigitsAt, RestAt, Pow;
    Parity(D);
  }

  lemma Parity(D: nat)
    ensures D % 10 % 2 == D % 2
  {
  }

  lemma FlagAt(g: Gap, f: nat, D: nat, r: nat, X: nat, inex: Inexact)
    requires Split(g, f, D, r) && (X == D || X == D + 1)
    ensures FlagNames(inex, g, f, X) <==> inex == if X == D + 1 then Inexhi else if r == 0 then Exact else Inexlo
  {
    Distances(g, f, D, r, D);
  }

  /** Rounding a 9 up gives a decimal in the gap, above N/S, and none on its grid is nearer. */
  lemma NineIsRight(g: Gap, D: nat, dig: nat, r: nat, empty: bool)
    requires Binary(g) && Split(g, 0, D, r) && dig == D <= 9 && (empty ==> r == 0)
    requires Judge(dig, r, g.S, g.lo, g.hi, g.even, empty) == Nine
    ensures dig == 9 && In(g, 10, 0) && FlagIs(Inexhi, g, 0, 10) && !FlagMisnames(g, 0)
    ensures Nearest(g, 0, 10)
  {
    hide Nearest;
    assert Pow(10, 0) == 1;
    LowIn(g, 0, D, r);
    HighIn(g, 0, D, r);
    SplitIs(g, 0, D, r);
    Distances(g, 0, D, r, D);
    HighIsNearest(g, 0, D, r);
  }

  /** A 9 is only ever rounded up as the first digit. */
  lemma NineComesFirst(g: Gap, f: nat, D: nat, dig: nat, r: nat, empty: bool)
    requires g.Valid() && Split(g, f, D, r) && dig == D % 10
    requires Judge(dig, r, g.S, g.lo * Pow(10, f), g.hi * Pow(10, f), g.even, empty) == Nine
    requires f > 0 ==> NoneOnGrid(g, f - 1)
    ensures dig == 9 && f == 0
  {
    hide In;
    HighIn(g, f, D, r);
    assert In(g, D + 1, f);
    if f > 0 {
      RefineOne(g, (D + 1) / 10, f - 1);
    }
  }
}
