/** What the decimal that the digit loop ends with means among the real numbers: the nearest of its length, and
    what its flag says. */
module PrintedMeaning {
  import opened Words
  import opened ShortestDecimal
  import opened Digits
  import opened DigitLoop
  import opened Mode0
  import opened DecimalMeaning
  import BinaryGaps

  /** No decimal of n digits at most that reads back as x is nearer to x than M 10^e. */
  ghost predicate NearestReading(M: nat, e: int, n: nat, x: real, lo: real, hi: real, even: bool)
  {
    forall M': nat, e': int :: M' < Pow(10, n) && Reads(Decimal(M', e'), x, lo, hi, even) ==>
      Distance(Decimal(M, e), x) <= Distance(Decimal(M', e'), x)
  }

  /** Of two decimals with last digit at 10^e that are equally near to x, M 10^e is the even one. */
  ghost predicate EvenOnTie(M: nat, e: int, x: real, lo: real, hi: real, even: bool)
  {
    forall D: nat ::
      D != M && Reads(Decimal(D, e), x, lo, hi, even) && Distance(Decimal(D, e), x) == Distance(Decimal(M, e), x) ==>
      M % 2 == 0
  }

  /** x lies between D and D + 1 units of 10^e. Both read back, the upper one strictly, and it is taken or nothing
      is left over. */
  ghost predicate MisnamedAt(D: nat, x: real, lo: real, hi: real, even: bool, e: int)
  {
    var low, high := Decimal(D, e), Decimal(D + 1, e);
    low <= x < high && Reads(low, x, lo, hi, even) && high - x < hi &&
    (x == low || (D % 10 != 9 && (x - low > high - x || (x - low == high - x && D % 2 == 1))))
  }

  /** The flag for y: the side of x it is on or, in the cases listed, too high for x itself and too low for others. */
  ghost predicate FlagSays(inex: Inexact, x: real, y: real, misnamed: bool)
  {
    (SideNamed(inex, x, y) <==> !misnamed) && (misnamed ==> inex == if y == x then Inexhi else Inexlo)
  }

  /** The cases in which the inexact flag of a text with last digit at 10^e names the wrong side. */
  ghost predicate Misnamed(x: real, lo: real, hi: real, even: bool, e: int)
  {
    exists D: nat :: MisnamedAt(D, x, lo, hi, even, e)
  }

  /** r is the unit of a grid that divides K into p parts. */
  ghost predicate UnitOf(r: real, p: nat, K: real)
  {
    K > 0.0 && p > 0 && r * (p as real) == K
  }

  /** x is N/S, in units of K. */
  ghost predicate NumberOf(N: nat, S: nat, x: real, K: real)
  {
    S > 0 && (N as real) * K == (S as real) * x
  }

  /** u is a, in units of K/c. */
  ghost predicate ScaledBy(u: real, c: real, a: int, K: real)
  {
    c > 0.0 && K > 0.0 && u * c == (a as real) * K
  }

  /** How many units of 1/(S 10^f) the unit 10^k has. */
  function Mesh(g: Gap, f: nat): real
  {
    (g.S as real) * (Pow(10, f) as real)
  }

  /** Differences on the grid, in units of 1/(S 10^f), and among the reals. */
  lemma OffAlgebra(X: int, N: nat, S: nat, p: nat, K: real, r: real, x: real, y: real, d: int, c: real)
    requires UnitOf(r, p, K) && NumberOf(N, S, x, K)
    requires y == (X as real) * r && d == X * S - N * p && c == (S as real) * (p as real)
    ensures ScaledBy(y - x, c, d, K)
  {
    var z, s, q, m := X as real, S as real, p as real, N as real;
    assert (z * r) * (s * q) == (z * s) * K by {
      RSwap(z, r, s, q);
    }
    assert x * (s * q) == (m * q) * K by {
      RAssoc(x, s, q);
      RSwap(m, K, q, 1.0);
    }
    RDistribute(z * r, x, s * q);
    RDistribute(z * s, m * q, K);
    RealMul(X, S);
    RealMul(N, p);
    MulPosReal(s, q);
  }

  /** The difference of X and N/S on the grid of f fraction digits. */
  function Off(g: Gap, X: int, f: nat): int
  {
    X * g.S - g.N * Pow(10, f)
  }

  lemma OffMeans(g: Gap, X: int, f: nat, k: int, x: real, lo: real, hi: real)
    requires GapStands(g, k, x, lo, hi)
    ensures ScaledBy(Decimal(X, k - f) - x, Mesh(g, f), Off(g, X, f), RPow(10, k))
  {
    hide *;
    GapNumber(g, k, x, lo, hi);
    GridUnit(k - f, f, k);
    OffIs(g, X, f);
    DecimalIs(X, k - f);
    MeshIs(g, f);
    OffAlgebra(X, g.N, g.S, Pow(10, f), RPow(10, k), RPow(10, k - f), x, Decimal(X, k - f), Off(g, X, f), Mesh(g, f));
  }

  lemma MeshIs(g: Gap, f: nat)
    ensures Mesh(g, f) == (g.S as real) * (Pow(10, f) as real)
  {
  }

  lemma GapNumber(g: Gap, k: int, x: real, lo: real, hi: real)
    requires GapStands(g, k, x, lo, hi)
    ensures NumberOf(g.N, g.S, x, RPow(10, k))
  {
    hide RPow;
  }

  lemma GridUnit(e: int, f: nat, k: int)
    requires k == e + f
    ensures UnitOf(RPow(10, e), Pow(10, f), RPow(10, k))
  {
    hide Pow, RPow;
    RPowAdd(10, e, f);
    RPowWhole(10, f);
  }

  lemma DecimalIs(X: int, e: int)
    ensures Decimal(X, e) == (X as real) * RPow(10, e)
  {
    hide RPow;
  }

  /** Signs and sizes of differences agree. */
  lemma OffCompares(a: int, b: int, u: real, w: real, c: real, K: real)
    requires ScaledBy(u, c, a, K) && ScaledBy(w, c, b, K)
    ensures (u < 0.0 <==> a < 0) && (u == 0.0 <==> a == 0)
    ensures u <= w <==> a <= b
    ensures u < 0.0 - w <==> a < -b
    ensures u == 0.0 - w <==> a == -b
  {
    RCancel(u, 0.0, c);
    RCancel(a as real, 0.0, K);
    RCancel(u, w, c);
    RCancel(a as real, b as real, K);
    RCancel(u, 0.0 - w, c);
    RCancel(a as real, (-b) as real, K);
    assert (0.0 - w) * c == ((-b) as real) * K;
  }

  lemma OffDistance(g: Gap, X: int, Y: int, f: nat, k: int, x: real, lo: real, hi: real)
    requires GapStands(g, k, x, lo, hi)
    ensures Away(g, f, X) <= Away(g, f, Y) <==> Distance(Decimal(X, k - f), x) <= Distance(Decimal(Y, k - f), x)
  {
    hide *;
    AwayIs(g, f, X);
    AwayIs(g, f, Y);
    OffMeans(g, X, f, k, x, lo, hi);
    OffMeans(g, Y, f, k, x, lo, hi);
    SameOrder(Off(g, X, f), Off(g, Y, f), Decimal(X, k - f), Decimal(Y, k - f), x,
      Mesh(g, f), RPow(10, k));
  }

  lemma AwayIs(g: Gap, f: nat, X: int)
    ensures Away(g, f, X) == Abs(Off(g, X, f))
  {
    hide Pow;
  }

  lemma SameOrder(a: int, b: int, y: real, z: real, x: real, c: real, K: real)
    requires ScaledBy(y - x, c, a, K) && ScaledBy(z - x, c, b, K)
    ensures Abs(a) <= Abs(b) <==> Distance(y, x) <= Distance(z, x)
  {
    hide ScaledBy;
    var u, w := y - x, z - x;
    OffCompares(a, b, u, w, c, K);
    OffCompares(b, a, w, u, c, K);
  }

  lemma OffIs(g: Gap, X: int, f: nat)
    ensures Off(g, X, f) == X * g.S - g.N * Pow(10, f)
  {
  }

  /** The nearest on its grid, among the reals. */
  lemma GridNearest(g: Gap, f: nat, P: int, k: int, x: real, lo: real, hi: real, X: int)
    requires GapStands(g, k, x, lo, hi) && Nearest(g, f, P) && Reads(Decimal(X, k - f), x, lo, hi, g.even)
    ensures Distance(Decimal(P, k - f), x) <= Distance(Decimal(X, k - f), x)
  {
    hide Pow, RPow, GapStands, In, Reads, Decimal, Distance, Away;
    InMeans(g, X, f, k, x, lo, hi);
    OffDistance(g, P, X, f, k, x, lo, hi);
  }

  /** Of two equally near decimals on its grid, the even one. */
  lemma GridTie(g: Gap, f: nat, P: int, k: int, x: real, lo: real, hi: real, X: int)
    requires GapStands(g, k, x, lo, hi) && Nearest(g, f, P) && Reads(Decimal(X, k - f), x, lo, hi, g.even) && X != P
    requires Distance(Decimal(P, k - f), x) == Distance(Decimal(X, k - f), x)
    ensures P % 2 == 0
  {
    hide Pow, RPow, GapStands, In, Reads, Decimal, Distance, Away;
    InMeans(g, X, f, k, x, lo, hi);
    OffDistance(g, P, X, f, k, x, lo, hi);
    OffDistance(g, X, P, f, k, x, lo, hi);
  }

  lemma TiesAll(g: Gap, f: nat, M: nat, e: int, k: int, x: real, lo: real, hi: real)
    requires GapStands(g, k, x, lo, hi) && Nearest(g, f, M) && e == k - f
    ensures EvenOnTie(M, e, x, lo, hi, g.even)
  {
    hide Pow, RPow, GapStands, Nearest, Reads, Decimal, Distance;
    forall D: nat |
      D != M && Reads(Decimal(D, e), x, lo, hi, g.even) && Distance(Decimal(D, e), x) == Distance(Decimal(M, e), x)
      ensures M % 2 == 0
    {
      GridTie(g, f, M, k, x, lo, hi, D);
    }
  }

  /** Below 10^e there is nothing to choose: 0 does not read back. */
  lemma NoTieBelow(M: nat, e: int, x: real, lo: real, hi: real, even: bool)
    requires lo < x < RPow(10, e) && Reads(Decimal(M, e), x, lo, hi, even)
    ensures EvenOnTie(M, e, x, lo, hi, even)
  {
    hide Decimal;
    UnitsOf(M, e);
    forall D: nat |
      D != M && Reads(Decimal(D, e), x, lo, hi, even) && Distance(Decimal(D, e), x) == Distance(Decimal(M, e), x)
      ensures M % 2 == 0
    {
      UnitsOf(D, e);
      DecimalMono(D, M, e);
      DecimalMono(M, D, e);
    }
  }

  /** 10^k is on every grid and not above x. */
  lemma TenBelow(g: Gap, f: nat, k: int, x: real, lo: real, hi: real)
    requires GapStands(g, k, x, lo, hi) && g.S <= g.N
    ensures Decimal(Pow(10, f), k - f) == RPow(10, k) <= x
  {
    hide *;
    GapNumber(g, k, x, lo, hi);
    GridUnit(k - f, f, k);
    DecimalIs(Pow(10, f), k - f);
    UnitAbove(RPow(10, k - f), Pow(10, f), RPow(10, k), g.N, g.S, x);
  }

  lemma UnitAbove(r: real, p: nat, K: real, N: nat, S: nat, x: real)
    requires UnitOf(r, p, K) && NumberOf(N, S, x, K) && S <= N
    ensures (p as real) * r == K <= x
  {
    var s, m := S as real, N as real;
    RCancel(s, m, K);
    assert K * s <= x * s;
    RCancel(K, x, s);
  }

  /** A decimal on a finer grid with no more digits is below 10^k. */
  lemma FinerBelow(M: nat, e: int, n: nat, k: int)
    requires M < Pow(10, n) && n > 0 && e + n <= k
    ensures Decimal(M, e) < RPow(10, k)
  {
    if M == 0 {
      DecimalIs(M, e);
    } else {
      PlaceBounds(10, M, n, e);
      DecimalIs(M, e);
      PlacedIs(M, e);
      if e + n < k {
        RPowGrows(10, e + n, k);
      }
    }
  }

  lemma PlacedIs(M: nat, e: int)
    ensures Placed(10, M, e) == (M as real) * RPow(10, e)
  {
    hide RPow;
  }

  lemma ReadsBetween(y: real, z: real, x: real, lo: real, hi: real, even: bool)
    requires Reads(y, x, lo, hi, even) && y < z <= x && hi > 0.0
    ensures Reads(z, x, lo, hi, even) && Distance(z, x) < Distance(y, x)
  {
  }

  /** The nearest on its grid is the nearest of its length. */
  lemma NearestOverall(g: Gap, n: nat, P: nat, k: int, x: real, lo: real, hi: real, M': nat, e': int)
    requires GapStands(g, k, x, lo, hi) && hi > 0.0 && g.S <= g.N && n > 0 && Nearest(g, n - 1, P)
    requires M' < Pow(10, n) && Reads(Decimal(M', e'), x, lo, hi, g.even)
    ensures Distance(Decimal(P, k - (n - 1)), x) <= Distance(Decimal(M', e'), x)
  {
    hide *;
    var e := k - (n - 1);
    if e' >= e {
      DecimalShift(M', e' - e, e);
      assert e + (e' - e) == e';
      GridNearest(g, n - 1, P, k, x, lo, hi, M' * Pow(10, e' - e));
    } else {
      FinerBelow(M', e', n, k);
      TenBelow(g, n - 1, k, x, lo, hi);
      ReadsBetween(Decimal(M', e'), RPow(10, k), x, lo, hi, g.even);
      GridNearest(g, n - 1, P, k, x, lo, hi, Pow(10, n - 1));
    }
  }

  // ----- the flag -----

  lemma FlagMeans(g: Gap, f: nat, X: int, inex: Inexact, k: int, x: real, lo: real, hi: real)
    requires GapStands(g, k, x, lo, hi)
    ensures FlagNames(inex, g, f, X) <==> SideNamed(inex, x, Decimal(X, k - f))
  {
    hide *;
    OffMeans(g, X, f, k, x, lo, hi);
    OffIs(g, X, f);
    FlagSide(g, f, X, inex);
    SideOf(inex, x, Decimal(X, k - f), Mesh(g, f), Off(g, X, f), RPow(10, k));
  }

  /** The flag in terms of the difference. */
  predicate Names(inex: Inexact, d: int)
  {
    match inex
    case Exact => d == 0
    case Inexlo => d < 0
    case Inexhi => d > 0
  }

  lemma FlagSide(g: Gap, f: nat, X: int, inex: Inexact)
    ensures FlagNames(inex, g, f, X) <==> Names(inex, Off(g, X, f))
  {
    hide Pow;
  }

  lemma SideOf(inex: Inexact, x: real, y: real, c: real, d: int, K: real)
    requires ScaledBy(y - x, c, d, K)
    ensures SideNamed(inex, x, y) <==> Names(inex, d)
  {
    hide ScaledBy;
    OffCompares(d, d, y - x, y - x, c, K);
  }

  /** The cases listed for the integers are the cases among the reals. */
  lemma MisnamedMeans(g: Gap, f: nat, D: nat, r: nat, k: int, x: real, lo: real, hi: real)
    requires g.Valid() && GapStands(g, k, x, lo, hi) && Split(g, f, D, r)
    ensures FlagMisnames(g, f) <==> MisnamedAt(D, x, lo, hi, g.even, k - f)
    ensures Decimal(D, k - f) <= x < Decimal(D + 1, k - f)
  {
    assert g.S > 0;
    hide *;
    SplitIs(g, f, D, r);
    Neighbours(g, f, D, r, k, x, lo, hi);
    InMeans(g, D, f, k, x, lo, hi);
    MisnamedCases(g, f, D, r, x, lo, hi, k - f);
  }

  /** Where x lies between the neighbours on the grid. */
  lemma Neighbours(g: Gap, f: nat, D: nat, r: nat, k: int, x: real, lo: real, hi: real)
    requires GapStands(g, k, x, lo, hi) && Split(g, f, D, r)
    ensures var low, high := Decimal(D, k - f), Decimal(D + 1, k - f);
      low <= x < high && (x == low <==> r == 0) && (high - x < hi <==> g.S - r < g.hi * Pow(10, f)) &&
      (x - low > high - x <==> r > g.S - r) && (x - low == high - x <==> r == g.S - r)
  {
    hide *;
    SplitOffs(g, f, D, r);
    OffMeans(g, D, f, k, x, lo, hi);
    OffMeans(g, D + 1, f, k, x, lo, hi);
    GapAbove(g, f, k, x, lo, hi);
    OffsCompare(Decimal(D, k - f), Decimal(D + 1, k - f), x, hi, Mesh(g, f), RPow(10, k), r, g.S - r,
      g.hi * Pow(10, f));
  }

  lemma SplitOffs(g: Gap, f: nat, D: nat, r: nat)
    requires Split(g, f, D, r)
    ensures Off(g, D, f) == 0 - r && Off(g, D + 1, f) == g.S - r && r < g.S
  {
    hide Pow;
    Distribute(g.S, D, 1);
  }

  lemma GapAbove(g: Gap, f: nat, k: int, x: real, lo: real, hi: real)
    requires GapStands(g, k, x, lo, hi)
    ensures ScaledBy(hi, Mesh(g, f), g.hi * Pow(10, f), RPow(10, k))
  {
    hide Pow, RPow;
    RealMul(g.hi, Pow(10, f));
    MulPosReal(g.S as real, Pow(10, f) as real);
    GapScaled(g.hi as real, RPow(10, k), g.S as real, hi, Pow(10, f) as real);
  }

  lemma GapScaled(h: real, K: real, S: real, hi: real, p: real)
    requires h * K == S * hi
    ensures hi * (S * p) == (h * p) * K
  {
    RAssoc(hi, S, p);
    RSwap(h, p, K, 1.0);
    assert hi * S == h * K;
  }

  /** Where x lies between two neighbours, and how far from each. */
  lemma OffsCompare(low: real, high: real, x: real, hi: real, c: real, K: real, r: int, s: int, h: int)
    requires ScaledBy(low - x, c, -r, K) && ScaledBy(high - x, c, s, K) && ScaledBy(hi, c, h, K) && r >= 0 && s > 0
    ensures low <= x < high && (x == low <==> r == 0) && (high - x < hi <==> s < h)
    ensures (x - low > high - x <==> r > s) && (x - low == high - x <==> r == s)
  {
    hide ScaledBy;
    OffCompares(-r, s, low - x, high - x, c, K);
    OffCompares(s, h, high - x, hi, c, K);
    OffCompares(h, s, hi, high - x, c, K);
    OffCompares(s, -r, high - x, low - x, c, K);
  }

  lemma MisnamedCases(g: Gap, f: nat, D: nat, r: nat, x: real, lo: real, hi: real, e: int)
    requires g.S > 0 && D == DigitsAt(g, f) && r == RestAt(g, f)
    requires In(g, D, f) <==> Reads(Decimal(D, e), x, lo, hi, g.even)
    requires Decimal(D, e) <= x < Decimal(D + 1, e) && (x == Decimal(D, e) <==> r == 0)
    requires Decimal(D + 1, e) - x < hi <==> g.S - r < g.hi * Pow(10, f)
    requires x - Decimal(D, e) > Decimal(D + 1, e) - x <==> r > g.S - r
    requires x - Decimal(D, e) == Decimal(D + 1, e) - x <==> r == g.S - r
    ensures FlagMisnames(g, f) <==> MisnamedAt(D, x, lo, hi, g.even, e)
  {
    hide Pow, Decimal, Reads, In, DigitsAt, RestAt;
  }

  /** Only one number of units has x between it and the next. */
  lemma OneUnitBelow(D: nat, D': nat, x: real, e: int)
    requires Decimal(D, e) <= x < Decimal(D + 1, e) && Decimal(D', e) <= x < Decimal(D' + 1, e)
    ensures D == D'
  {
    hide *;
    DecimalMono(D, D' + 1, e);
    DecimalMono(D', D + 1, e);
  }

  lemma MisnamedOnly(D: nat, x: real, lo: real, hi: real, even: bool, e: int)
    requires Decimal(D, e) <= x < Decimal(D + 1, e)
    ensures Misnamed(x, lo, hi, even, e) <==> MisnamedAt(D, x, lo, hi, even, e)
  {
    hide Decimal, Reads;
    if Misnamed(x, lo, hi, even, e) {
      var D': nat :| MisnamedAt(D', x, lo, hi, even, e);
      OneUnitBelow(D, D', x, e);
    }
  }

  // ----- all of it -----

  /** M 10^e is the shortest decimal that reads back as x, none of its length is nearer, of two equally near ones it
      is the even one, and the flag is right but for the cases listed. */
  ghost predicate PrintsWell(M: nat, e: int, n: nat, x: real, lo: real, hi: real, even: bool, inex: Inexact)
    requires n > 0
  {
    ShortestReading(M, e, n, x, lo, hi, even) && NearestReading(M, e, n, x, lo, hi, even) &&
    EvenOnTie(M, e, x, lo, hi, even) && FlagSays(inex, x, Decimal(M, e), Misnamed(x, lo, hi, even, e))
  }

  lemma AtPlace(g: Gap, f: nat) returns (D: nat, r: nat)
    requires g.S > 0
    ensures Split(g, f, D, r)
  {
    D, r := g.N * Pow(10, f) / g.S, g.N * Pow(10, f) % g.S;
    BinaryGaps.QuotientOf(g.N * Pow(10, f), g.S);
  }

  /** Below 10^e nothing is misnamed: 0 does not read back. */
  lemma NotMisnamedBelow(x: real, lo: real, hi: real, even: bool, e: int)
    requires lo < x < RPow(10, e)
    ensures !Misnamed(x, lo, hi, even, e)
  {
    forall D: nat
      ensures !MisnamedAt(D, x, lo, hi, even, e)
    {
      UnitsOf(D, e);
      hide Decimal;
    }
  }

  lemma UnitsOf(D: nat, e: int)
    ensures D == 0 ==> Decimal(D, e) == 0.0
    ensures D > 0 ==> Decimal(D, e) >= RPow(10, e)
  {
    hide RPow;
    if D > 0 {
      RCancel(1.0, D as real, RPow(10, e));
    }
  }

  lemma BelowNext(g: Gap, k: int, x: real, lo: real, hi: real)
    requires GapStands(g, k, x, lo, hi) && g.N < 10 * g.S
    ensures x < RPow(10, k + 1)
  {
    hide *;
    GapNumber(g, k, x, lo, hi);
    RPowAdd(10, k, 1);
    BinaryGaps.TenOnce();
    UnitBelow(RPow(10, k), g.N, g.S, x);
  }

  lemma UnitBelow(K: real, N: nat, S: nat, x: real)
    requires NumberOf(N, S, x, K) && K > 0.0 && N < 10 * S
    ensures x < K * 10.0
  {
    UnitBelowReals(K, N as real, S as real, x);
  }

  lemma UnitBelowReals(K: real, m: real, s: real, x: real)
    requires s > 0.0 && K > 0.0 && m * K == s * x && m < 10.0 * s
    ensures x < K * 10.0
  {
    RCancel(m, 10.0 * s, K);
    RAssoc(s, 10.0, K);
    assert (10.0 * s) * K == s * (10.0 * K);
    RCancel(x, 10.0 * K, s);
  }

  /** What the digit loop leaves behind, among the real numbers. */
  lemma WrittenWell(s: seq<char>, n: nat, grown: int, inex: Inexact, g: Gap, k: int, x: real, lo: real, hi: real)
    requires g.Valid() && Written(s, n, grown, inex, g) && GapStands(g, k, x, lo, hi) && hi > 0.0 && lo < x
    ensures 0 < n <= |s| && AllDigits(s[..n])
    ensures PrintsWell(DigitsValue(s[..n]), k + grown + 1 - n, n, x, lo, hi, g.even, inex)
  {
    WrittenParts(s, n, grown, inex, g);
    hide *;
    var M, P, f, e := DigitsValue(s[..n]), Printed(s[..n], grown), n - 1, k + grown + 1 - n;
    DecimalShift(M, grown, k - f);
    assert k - f + grown == e;
    ShortestMeans(g, n, M, grown, k, x, lo, hi);
    NearestAll(g, n, P, M, e, k, x, lo, hi);
    FlagMeans(g, f, P, inex, k, x, lo, hi);
    FlagMeans(g, f, P, Exact, k, x, lo, hi);
    ExactIs(x, Decimal(M, e));
    ReadsOf(M, e, n, x, lo, hi, g.even);
    if grown == 0 {
      TiesAll(g, f, M, e, k, x, lo, hi);
      var D, r := AtPlace(g, f);
      MisnamedMeans(g, f, D, r, k, x, lo, hi);
      MisnamedOnly(D, x, lo, hi, g.even, e);
    } else {
      BelowNext(g, k, x, lo, hi);
      NotMisnamedBelow(x, lo, hi, g.even, e);
      NoTieBelow(M, e, x, lo, hi, g.even);
    }
    WellOf(M, e, n, x, lo, hi, g.even, inex);
  }

  lemma ExactIs(x: real, y: real)
    ensures SideNamed(Exact, x, y) <==> y == x
  {
  }

  lemma ReadsOf(M: nat, e: int, n: nat, x: real, lo: real, hi: real, even: bool)
    requires n > 0 && ShortestReading(M, e, n, x, lo, hi, even)
    ensures Reads(Decimal(M, e), x, lo, hi, even)
  {
    hide Reads, Decimal, Pow;
  }

  lemma NearestAll(g: Gap, n: nat, P: nat, M: nat, e: int, k: int, x: real, lo: real, hi: real)
    requires GapStands(g, k, x, lo, hi) && hi > 0.0 && g.S <= g.N && n > 0 && Nearest(g, n - 1, P)
    requires Decimal(P, k - (n - 1)) == Decimal(M, e)
    ensures NearestReading(M, e, n, x, lo, hi, g.even)
  {
    hide Pow, RPow, GapStands, Nearest, Reads, Decimal, Distance;
    forall M': nat, e': int | M' < Pow(10, n) && Reads(Decimal(M', e'), x, lo, hi, g.even)
      ensures Distance(Decimal(M, e), x) <= Distance(Decimal(M', e'), x)
    {
      NearestOverall(g, n, P, k, x, lo, hi, M', e');
    }
  }

  lemma WrittenParts(s: seq<char>, n: nat, grown: int, inex: Inexact, g: Gap)
    requires g.Valid() && Written(s, n, grown, inex, g)
    ensures 0 < n < |s| && AllDigits(s[..n]) && g.S > 0 && g.S <= g.N < 10 * g.S
    ensures grown == 0 || (grown == 1 && n == 1 && !FlagMisnames(g, n - 1))
    ensures Printed(s[..n], grown) == DigitsValue(s[..n]) * Pow(10, grown)
    ensures In(g, Printed(s[..n], grown), n - 1) && NoneShorter(g, n) && Nearest(g, n - 1, Printed(s[..n], grown))
    ensures grown == 0 ==> Printed(s[..n], grown) == DigitsValue(s[..n])
    ensures FlagNames(inex, g, n - 1, Printed(s[..n], grown)) <==> !FlagMisnames(g, n - 1)
    ensures FlagMisnames(g, n - 1) ==>
      inex == if FlagNames(Exact, g, n - 1, Printed(s[..n], grown)) then Inexhi else Inexlo
  {
    hide Pow, In, NoneShorter, Nearest, FlagNames, FlagMisnames, DigitsValue;
  }

  lemma WellOf(M: nat, e: int, n: nat, x: real, lo: real, hi: real, even: bool, inex: Inexact)
    requires n > 0 && ShortestReading(M, e, n, x, lo, hi, even) && NearestReading(M, e, n, x, lo, hi, even)
    requires EvenOnTie(M, e, x, lo, hi, even) && (SideNamed(inex, x, Decimal(M, e)) <==> !Misnamed(x, lo, hi, even, e))
    requires Misnamed(x, lo, hi, even, e) ==> inex == if Decimal(M, e) == x then Inexhi else Inexlo
    ensures PrintsWell(M, e, n, x, lo, hi, even, inex)
  {
    hide ShortestReading, NearestReading, EvenOnTie, Misnamed, SideNamed, Decimal;
  }
}
