/** Laws of the transform: energy, the inverse, and conjugation. */
module FourierLaws {
  import opened Words
  import opened Complex
  import opened BitReversal
  import opened Dft

  /** The laws a table of factors keeps: modulus one, and the double angle further down the table. */
  ghost predicate DoubleAngle(u: seq<C>)
  {
    forall b :: 0 < b < |u| ==> Norm(u[b]) == 1.0 && Mul(u[b], u[b]) == Factor(u, b)
  }

  /** All that the energy asks of a table: modulus one. */
  ghost predicate UnitFactors(u: seq<C>)
  {
    forall b :: 0 < b < |u| ==> Norm(u[b]) == 1.0
  }

  lemma AnglesAreUnits(u: seq<C>)
    requires DoubleAngle(u)
    ensures UnitFactors(u)
  {
    hide Mul, Factor, Norm;
  }

  /** A table of powers with reversed exponents keeps the double-angle laws. */
  lemma TableDoublesAngles(u: seq<C>, K: nat, omega: C)
    requires K >= 2 && Table(u, K, omega) && |u| == Pow(2, K - 2)
    ensures DoubleAngle(u)
  {
    assert Pow(2, K - 1) == 2 * Pow(2, K - 2);
    hide Mul, Norm, Factor, Rev;
    forall b | 0 < b < |u|
      ensures Norm(u[b]) == 1.0 && Mul(u[b], u[b]) == Factor(u, b)
    {
      var r := Rev(K - 2, b);
      NormPower(omega, r);
      FactorIs(u, K, omega, b);
      RevGrows(K - 2, b);
      PowerAdd(omega, r, r);
    }
  }

  /** The sum of the squares of the moduli. */
  function Energy(s: seq<C>): real
  {
    if |s| == 0 then 0.0 else Energy(s[..|s| - 1]) + Norm(s[|s| - 1])
  }

  lemma {:induction false} EnergyConcat(s: seq<C>, t: seq<C>)
    ensures Energy(s + t) == Energy(s) + Energy(t)
    decreases |t|
  {
    hide Norm;
    if |t| == 0 {
      assert s + t == s;
    } else {
      EnergyConcat(s, t[..|t| - 1]);
      assert (s + t)[..|s + t| - 1] == s + t[..|t| - 1];
    }
  }

  function Times(n: nat, x: real): real
  {
    n as real * x
  }

  /** Sum and difference have twice the energy of the numbers. */
  lemma TwiceTheNorm(a: C, b: C, t: C)
    requires Norm(t) == 1.0
    ensures Norm(Add(a, b)) + Norm(Mul(t, Sub(a, b))) == 2.0 * (Norm(a) + Norm(b))
  {
    NormMul(t, Sub(a, b));
  }

  lemma {:induction false} PairwiseEnergy(a: seq<C>, b: seq<C>, t: C)
    requires |a| == |b| && Norm(t) == 1.0
    ensures Energy(Pairwise(a, b, t)) == 2.0 * (Energy(a) + Energy(b))
    decreases |a|
  {
    hide Norm, Add, Sub, Mul;
    var n := |a|;
    if n > 0 {
      var a', b', x, y := a[..n - 1], b[..n - 1], a[n - 1], b[n - 1];
      PairwiseEnergy(a', b', t);
      TwiceTheNorm(x, y, t);
      var lo, hi := Pairwise(a', b', t)[..n - 1], Pairwise(a', b', t)[n - 1..];
      EnergyConcat(lo, hi);
      assert Pairwise(a', b', t) == lo + hi;
      assert Pairwise(a, b, t) == (lo + [Add(x, y)]) + (hi + [Mul(t, Sub(x, y))]);
      EnergyConcat(lo + [Add(x, y)], hi + [Mul(t, Sub(x, y))]);
      EnergyOne(lo, Add(x, y));
      EnergyOne(hi, Mul(t, Sub(x, y)));
    }
  }

  lemma EnergyOne(s: seq<C>, z: C)
    ensures Energy(s + [z]) == Energy(s) + Norm(z)
  {
    assert (s + [z])[..|s|] == s;
  }

  lemma FactorNorm(u: seq<C>, b: nat)
    requires UnitFactors(u)
    ensures Norm(Factor(u, b)) == 1.0
  {
    if 1 < b < 2 * |u| {
      NormMul(I, u[b / 2]);
    }
  }

  /** The network multiplies the energy by the number of entries, for any table of modulus one. */
  lemma {:induction false} NetworkEnergy(u: seq<C>, k: nat, s: seq<C>, B: nat)
    requires UnitFactors(u) && |s| == Pow(2, k)
    ensures Energy(Network(u, k, s, B)) == Times(Pow(2, k), Energy(s))
    decreases k
  {
    hide Energy, Factor, Norm, Times, Pairwise;
    if k == 0 {
      TimesOne(Energy(s));
    } else {
      var h := Pow(2, k - 1);
      var l, r := s[..h], s[h..];
      NetworkEnergy(u, k - 1, l, 2 * B);
      NetworkEnergy(u, k - 1, r, 2 * B + 1);
      FactorNorm(u, B);
      PairwiseEnergy(Network(u, k - 1, l, 2 * B), Network(u, k - 1, r, 2 * B + 1), Factor(u, B));
      assert s == l + r;
      EnergyConcat(l, r);
      TwiceScaled(h, Energy(l), Energy(r));
    }
  }

  lemma TimesOne(x: real)
    ensures Times(1, x) == x
  {
  }

  lemma TwiceScaled(h: nat, x: real, y: real)
    ensures 2.0 * (Times(h, x) + Times(h, y)) == Times(2 * h, x + y)
  {
    RealDistribute(h as real, x, y);
    Triple(2.0, h as real, x + y);
    assert (2 * h) as real == 2.0 * (h as real);
  }

  lemma {:induction false} EvensAndOdds(x: seq<C>)
    requires |x| % 2 == 0
    ensures Energy(x) == Energy(Evens(x)) + Energy(Odds(x))
    decreases |x|
  {
    hide *;
    if |x| > 0 {
      var y, e, o := x[..|x| - 2], x[|x| - 2], x[|x| - 1];
      EvensAndOdds(y);
      LastPair(x, y, e, o);
      EnergyOne(Evens(y), e);
      EnergyOne(Odds(y), o);
      EnergyOne(y, e);
      EnergyOne(y + [e], o);
    } else {
      NoEnergy(x);
    }
  }

  lemma LastPair(x: seq<C>, y: seq<C>, e: C, o: C)
    requires |x| % 2 == 0 && x == y + [e] + [o]
    ensures Evens(x) == Evens(y) + [e] && Odds(x) == Odds(y) + [o]
  {
  }

  lemma NoEnergy(x: seq<C>)
    requires |x| == 0
    ensures Energy(x) == 0.0 && Energy(Evens(x)) == 0.0 && Energy(Odds(x)) == 0.0
  {
  }

  lemma {:induction false} ReversedEnergy(b: nat, x: seq<C>)
    requires |x| == Pow(2, b)
    ensures Energy(Reversed(b, x)) == Energy(x)
    decreases b
  {
    if b == 0 {
      assert Rev(0, 0) == 0;
      assert Reversed(0, x) == x;
    } else {
      var h, r := Pow(2, b - 1), Reversed(b, x);
      hide Reversed, Norm;
      ReversedHalves(b, x);
      ReversedEnergy(b - 1, Evens(x));
      ReversedEnergy(b - 1, Odds(x));
      EvensAndOdds(x);
      assert r == r[..h] + r[h..];
      EnergyConcat(r[..h], r[h..]);
    }
  }

  /** Parseval: the energy of the transform is the number of entries times the energy of the input. */
  lemma Parseval(u: seq<C>, k: nat, x: seq<C>)
    requires UnitFactors(u) && |x| == Pow(2, k)
    ensures Energy(Network(u, k, Reversed(k, x), 0)) == Times(Pow(2, k), Energy(x))
  {
    hide Energy, Network, Reversed, Times;
    ReversedEnergy(k, x);
    NetworkEnergy(u, k, Reversed(k, x), 0);
  }

  // ----- the inverse -----

  /** All entries of the transform. */
  function All(x: seq<C>, theta: C): (r: seq<C>)
    ensures |r| == |x|
  {
    seq(|x|, k requires 0 <= k < |x| => Transform(x, theta, k))
  }

  function Scale(z: C, x: seq<C>): (r: seq<C>)
    ensures |r| == |x|
  {
    seq(|x|, i requires 0 <= i < |x| => Mul(z, x[i]))
  }

  function AddAll(x: seq<C>, y: seq<C>): (r: seq<C>)
    requires |x| == |y|
    ensures |r| == |x|
  {
    seq(|x|, i requires 0 <= i < |x| => Add(x[i], y[i]))
  }

  lemma {:induction false} SumLinear(z: C, x: seq<C>, y: seq<C>, theta: C, k: nat, n: nat)
    requires |x| == |y| && n <= |x|
    ensures Sum(AddAll(x, Scale(z, y)), theta, k, n) == Add(Sum(x, theta, k, n), Mul(z, Sum(y, theta, k, n)))
  {
    hide Mul;
    if n == 0 {
      MulOne(z);
      MulOne(ZERO);
    } else {
      SumLinear(z, x, y, theta, k, n - 1);
      var p := Power(theta, (n - 1) * k);
      CDistribute(p, x[n - 1], Mul(z, y[n - 1]));
      CMulAssoc(z, y[n - 1], p);
      CDistribute(z, Sum(y, theta, k, n - 1), Mul(y[n - 1], p));
    }
  }

  /** The powers theta^(m k) for every k: the transform of a unit at place m. */
  function Wave(theta: C, m: nat, n: nat): (r: seq<C>)
    ensures |r| == n
  {
    seq(n, k requires 0 <= k < n => Power(theta, m * k))
  }

  /** The sum of the first n powers of z. */
  function Geometric(z: C, n: nat): C
  {
    if n == 0 then ZERO else Add(Geometric(z, n - 1), Power(z, n - 1))
  }

  lemma {:induction false} GeometricTelescopes(z: C, n: nat)
    ensures Mul(Sub(z, ONE), Geometric(z, n)) == Sub(Power(z, n), ONE)
  {
    hide Mul;
    if n == 0 {
      MulOne(Sub(z, ONE));
    } else {
      GeometricTelescopes(z, n - 1);
      CDistribute(Sub(z, ONE), Geometric(z, n - 1), Power(z, n - 1));
      CDistribute(Power(z, n - 1), z, ONE);
      MulOne(Power(z, n - 1));
    }
  }

  lemma NoZeroDivisors(a: C, b: C)
    requires Mul(a, b) == ZERO && a != ZERO
    ensures b == ZERO
  {
    NormMul(a, b);
    SquaresVanish(a);
    SquaresVanish(b);
    if Norm(b) != 0.0 {
      PositiveProduct(Norm(a), Norm(b));
    }
  }

  lemma PositiveProduct(a: real, b: real)
    requires a > 0.0 && b > 0.0
    ensures a * b > 0.0
  {
  }

  lemma SquaresVanish(a: C)
    ensures Norm(a) >= 0.0 && (a != ZERO ==> Norm(a) > 0.0)
  {
    var p, q := Squared(a.re), Squared(a.im);
    assert Norm(a) == p + q;
    assert a == ZERO || a.re != 0.0 || a.im != 0.0;
    hide Norm, Squared;
    Square(a.re);
    Square(a.im);
  }

  function Squared(x: real): real
  {
    x * x
  }

  lemma Square(x: real)
    ensures Squared(x) >= 0.0 && (x != 0.0 ==> Squared(x) > 0.0)
  {
    hide Squared;
    if x == 0.0 {
      SquaredZero();
    } else if x > 0.0 {
      SquaredPositive(x);
    } else {
      SquaredMinus(x);
      SquaredPositive(-x);
    }
  }

  lemma SquaredZero()
    ensures Squared(0.0) == 0.0
  {
  }

  lemma SquaredPositive(x: real)
    requires x > 0.0
    ensures Squared(x) > 0.0
  {
    ProductPositive(x, x, Squared(x));
  }

  lemma ProductPositive(x: real, y: real, p: real)
    requires x > 0.0 && y > 0.0 && p == x * y
    ensures p > 0.0
  {
  }

  lemma SquaredMinus(x: real)
    ensures Squared(-x) == Squared(x)
  {
  }

  lemma {:induction false} GeometricOfOne(n: nat)
    ensures Geometric(ONE, n) == C(n as real, 0.0)
  {
    hide Power;
    if n > 0 {
      GeometricOfOne(n - 1);
      PowerOne(n - 1);
    }
  }

  lemma {:induction false} MinusOnePower(z: C, n: nat)
    requires z == C(-1.0, 0.0)
    ensures Power(z, n) == if n % 2 == 0 then ONE else z
  {
    hide Mul;
    if n > 0 {
      MinusOnePower(z, n - 1);
      MinusTurns(z);
    }
  }

  lemma MinusTurns(z: C)
    requires z == C(-1.0, 0.0)
    ensures Mul(z, ONE) == z && Mul(z, z) == ONE
  {
  }

  /** A kernel of order 2^K: no smaller power is one. */
  lemma {:induction false} NotOneBefore(theta: C, K: nat, d: nat)
    requires K > 0 && Power(theta, Pow(2, K - 1)) == C(-1.0, 0.0) && 0 < d < Pow(2, K)
    ensures Power(theta, d) != ONE
    decreases K
  {
    if d % 2 == 1 {
      OddPower(theta, Pow(2, K - 1), d);
    } else {
      SquareKernel(theta, K, d);
      NotOneBefore(Power(theta, 2), K - 1, d / 2);
    }
  }

  lemma SquareKernel(theta: C, K: nat, d: nat)
    requires K > 0 && Power(theta, Pow(2, K - 1)) == C(-1.0, 0.0) && 0 < d < Pow(2, K) && d % 2 == 0
    ensures K > 1 && Power(Power(theta, 2), Pow(2, K - 2)) == C(-1.0, 0.0) && 0 < d / 2 < Pow(2, K - 1)
    ensures Power(Power(theta, 2), d / 2) == Power(theta, d)
  {
    hide *;
    PowTwice(K);
    if K == 1 {
      NoPower();
      assert false;
    }
    PowTwice(K - 1);
    PowerPower(theta, 2, d / 2);
    PowerPower(theta, 2, Pow(2, K - 2));
  }

  lemma NoPower()
    ensures Pow(2, 0) == 1
  {
  }

  lemma OddPower(theta: C, N: nat, d: nat)
    requires Power(theta, N) == C(-1.0, 0.0) && d % 2 == 1
    ensures Power(theta, d) != ONE
  {
    hide Mul, Power;
    PowerPower(theta, d, N);
    PowerPower(theta, N, d);
    MinusOnePower(Power(theta, N), d);
    PowerOne(N);
    assert d * N == N * d;
  }

  /** theta^m times the conjugate of theta^j. */
  function Beat(theta: C, m: nat, j: nat): C
  {
    Mul(Power(theta, m), Power(Conj(theta), j))
  }

  lemma BeatIs(theta: C, m: nat, j: nat)
    requires Norm(theta) == 1.0
    ensures m >= j ==> Beat(theta, m, j) == Power(theta, m - j)
    ensures m <= j ==> Beat(theta, m, j) == Conj(Power(theta, j - m))
  {
    hide Mul;
    var c := if m < j then m else j;
    PowerMul(theta, Conj(theta), c);
    MulConj(theta);
    PowerOne(c);
    if m >= j {
      PowerAdd(theta, m - j, j);
      CMulAssoc(Power(theta, m - j), Power(theta, j), Power(Conj(theta), j));
      MulOne(Power(theta, m - j));
    }
    if m <= j {
      PowerAdd(Conj(theta), m, j - m);
      CMulAssoc(Power(theta, m), Power(Conj(theta), m), Power(Conj(theta), j - m));
      ConjPower(theta, j - m);
      MulOne(Power(Conj(theta), j - m));
    }
  }

  lemma {:induction false} WaveSum(theta: C, m: nat, j: nat, N: nat, n: nat)
    requires n <= N
    ensures Sum(Wave(theta, m, N), Conj(theta), j, n) == Geometric(Beat(theta, m, j), n)
  {
    hide Mul, Add;
    if n > 0 {
      WaveSum(theta, m, j, N, n - 1);
      PowerPower(theta, m, n - 1);
      PowerPower(Conj(theta), j, n - 1);
      assert (n - 1) * j == j * (n - 1);
      PowerMul(Power(theta, m), Power(Conj(theta), j), n - 1);
    }
  }

  /** Different places of the kernel are orthogonal. */
  lemma Orthogonal(theta: C, K: nat, m: nat, j: nat)
    requires Norm(theta) == 1.0 && K > 0 && Power(theta, Pow(2, K - 1)) == C(-1.0, 0.0)
    requires m < Pow(2, K) && j < Pow(2, K)
    ensures var N := Pow(2, K);
      Transform(Wave(theta, m, N), Conj(theta), j) == if m == j then C(N as real, 0.0) else ZERO
  {
    hide *;
    var N := Pow(2, K);
    TransformIsSum(Wave(theta, m, N), Conj(theta), j);
    WaveSum(theta, m, j, N, N);
    if m == j {
      BeatSame(theta, j);
      GeometricOfOne(N);
    } else {
      BeatsOut(theta, K, m, j);
    }
  }

  lemma BeatSame(theta: C, j: nat)
    requires Norm(theta) == 1.0
    ensures Beat(theta, j, j) == ONE
  {
    hide Beat;
    BeatIs(theta, j, j);
    PowerFirst(theta);
  }

  lemma BeatsOut(theta: C, K: nat, m: nat, j: nat)
    requires Norm(theta) == 1.0 && K > 0 && Power(theta, Pow(2, K - 1)) == C(-1.0, 0.0)
    requires m < Pow(2, K) && j < Pow(2, K) && m != j
    ensures Geometric(Beat(theta, m, j), Pow(2, K)) == ZERO
  {
    hide *;
    BeatNotOne(theta, K, m, j);
    BeatFullTurn(theta, K, m, j);
    FullTurnSum(Beat(theta, m, j), Pow(2, K));
  }

  lemma BeatNotOne(theta: C, K: nat, m: nat, j: nat)
    requires Norm(theta) == 1.0 && K > 0 && Power(theta, Pow(2, K - 1)) == C(-1.0, 0.0)
    requires m < Pow(2, K) && j < Pow(2, K) && m != j
    ensures Beat(theta, m, j) != ONE
  {
    hide *;
    BeatIs(theta, m, j);
    var d: nat := if m > j then m - j else j - m;
    NotOneBefore(theta, K, d);
    ConjOne(Power(theta, d));
  }

  lemma FullTurnSum(z: C, N: nat)
    requires z != ONE && Power(z, N) == ONE
    ensures Geometric(z, N) == ZERO
  {
    hide *;
    GeometricTelescopes(z, N);
    SubZero(z, ONE);
    SubZero(ONE, ONE);
    NoZeroDivisors(Sub(z, ONE), Geometric(z, N));
  }

  lemma ConjOne(z: C)
    ensures Conj(z) == ONE <==> z == ONE
  {
  }

  lemma SubZero(a: C, b: C)
    ensures Sub(a, b) == ZERO <==> a == b
  {
  }

  lemma TransformIsSum(x: seq<C>, theta: C, k: nat)
    ensures Transform(x, theta, k) == Sum(x, theta, k, |x|)
  {
  }

  lemma BeatFullTurn(theta: C, K: nat, m: nat, j: nat)
    requires K > 0 && Power(theta, Pow(2, K - 1)) == C(-1.0, 0.0)
    ensures Power(Beat(theta, m, j), Pow(2, K)) == ONE
  {
    hide *;
    FullTurn(theta, K);
    BeatTurns(theta, m, j, Pow(2, K));
  }

  lemma FullTurn(theta: C, K: nat)
    requires K > 0 && Power(theta, Pow(2, K - 1)) == C(-1.0, 0.0)
    ensures Power(theta, Pow(2, K)) == ONE
  {
    hide *;
    PowTwice(K);
    PowerPower(theta, Pow(2, K - 1), 2);
    MinusOnePower(Power(theta, Pow(2, K - 1)), 2);
  }

  lemma PowTwice(K: nat)
    requires K > 0
    ensures Pow(2, K) == Pow(2, K - 1) * 2 > 0
  {
  }

  lemma BeatTurns(theta: C, m: nat, j: nat, N: nat)
    requires Power(theta, N) == ONE
    ensures Power(Beat(theta, m, j), N) == ONE
  {
    hide *;
    ConjPower(theta, N);
    ConjOne(Power(theta, N));
    BeatIsProduct(theta, m, j);
    PowerMul(Power(theta, m), Power(Conj(theta), j), N);
    PowerOfTurn(theta, m, N);
    PowerOfTurn(Conj(theta), j, N);
    MulOne(ONE);
  }

  lemma BeatIsProduct(theta: C, m: nat, j: nat)
    ensures Beat(theta, m, j) == Mul(Power(theta, m), Power(Conj(theta), j))
  {
  }

  lemma PowerOfTurn(theta: C, m: nat, N: nat)
    requires Power(theta, N) == ONE
    ensures Power(Power(theta, m), N) == ONE
  {
    hide Mul, Power;
    PowerPower(theta, m, N);
    PowerPower(theta, N, m);
    assert m * N == N * m;
    PowerOne(m);
  }

  /** The transform of the first n numbers of x, the others taken as zero. */
  function Upto(x: seq<C>, theta: C, n: nat): (r: seq<C>)
    requires n <= |x|
    ensures |r| == |x|
  {
    seq(|x|, k requires 0 <= k < |x| && n <= |x| => Sum(x, theta, k, n))
  }

  lemma {:induction false} InverseUpto(x: seq<C>, theta: C, K: nat, n: nat, j: nat)
    requires Norm(theta) == 1.0 && K > 0 && Power(theta, Pow(2, K - 1)) == C(-1.0, 0.0)
    requires |x| == Pow(2, K) && n <= |x| && j < |x|
    ensures Transform(Upto(x, theta, n), Conj(theta), j) ==
            if j < n then Mul(x[j], C(|x| as real, 0.0)) else ZERO
  {
    hide Mul, Add, Norm, Transform, Power, Pow, AddAll, Scale, Wave;
    if n == 0 {
      TransformOfZeros(Upto(x, theta, 0), Conj(theta), j);
    } else {
      var N := |x|;
      InverseUpto(x, theta, K, n - 1, j);
      UptoStep(x, theta, n);
      TransformLinear(x[n - 1], Upto(x, theta, n - 1), Wave(theta, n - 1, N), Conj(theta), j);
      Orthogonal(theta, K, n - 1, j);
      OneMore(x, n, j, C(N as real, 0.0), Transform(Upto(x, theta, n - 1), Conj(theta), j),
        Transform(Wave(theta, n - 1, N), Conj(theta), j));
    }
  }

  lemma OneMore(x: seq<C>, n: nat, j: nat, N: C, before: C, wave: C)
    requires 0 < n <= |x| && j < |x| && wave == if n - 1 == j then N else ZERO
    requires before == if j < n - 1 then Mul(x[j], N) else ZERO
    ensures Add(before, Mul(x[n - 1], wave)) == if j < n then Mul(x[j], N) else ZERO
  {
    hide Mul, Add;
    MulOne(x[n - 1]);
    MulOne(before);
    MulOne(Mul(x[j], N));
  }

  lemma TransformLinear(z: C, x: seq<C>, y: seq<C>, theta: C, k: nat)
    requires |x| == |y|
    ensures Transform(AddAll(x, Scale(z, y)), theta, k) == Add(Transform(x, theta, k), Mul(z, Transform(y, theta, k)))
  {
    SumLinear(z, x, y, theta, k, |x|);
  }

  lemma UptoStep(x: seq<C>, theta: C, n: nat)
    requires 0 < n <= |x|
    ensures Upto(x, theta, n) == AddAll(Upto(x, theta, n - 1), Scale(x[n - 1], Wave(theta, n - 1, |x|)))
  {
    hide Mul, Add;
  }

  lemma TransformOfZeros(s: seq<C>, theta: C, k: nat)
    requires forall i :: 0 <= i < |s| ==> s[i] == ZERO
    ensures Transform(s, theta, k) == ZERO
  {
    SumOfZeros(s, theta, k, |s|);
  }

  lemma {:induction false} SumOfZeros(s: seq<C>, theta: C, k: nat, n: nat)
    requires n <= |s| && forall i :: 0 <= i < |s| ==> s[i] == ZERO
    ensures Sum(s, theta, k, n) == ZERO
  {
    hide Mul, Power, Add;
    if n > 0 {
      MulOne(ZERO);
      SumOfZeros(s, theta, k, n - 1);
      MulOne(Power(theta, (n - 1) * k));
    }
  }

  /** The transform with the conjugate kernel gives the numbers back, |x| times as large. */
  lemma Inverse(x: seq<C>, theta: C, K: nat, j: nat)
    requires Norm(theta) == 1.0 && K > 0 && Power(theta, Pow(2, K - 1)) == C(-1.0, 0.0)
    requires |x| == Pow(2, K) && j < |x|
    ensures Transform(All(x, theta), Conj(theta), j) == Mul(x[j], C(|x| as real, 0.0))
  {
    hide *;
    AllIsUpto(x, theta);
    InverseUpto(x, theta, K, |x|, j);
  }

  lemma AllIsUpto(x: seq<C>, theta: C)
    ensures All(x, theta) == Upto(x, theta, |x|)
  {
    hide Sum;
  }

  /** Conjugating before and after is the transform with the conjugate kernel. */
  lemma {:induction false} ConjugateSum(x: seq<C>, theta: C, k: nat, n: nat)
    requires n <= |x|
    ensures Conj(Sum(Conjugates(x), theta, k, n)) == Sum(x, Conj(theta), k, n)
  {
    if n > 0 {
      ConjugateSum(x, theta, k, n - 1);
      ConjugateTerm(Sum(Conjugates(x), theta, k, n - 1), x[n - 1], theta, (n - 1) * k);
    }
  }

  lemma ConjugateTerm(s: C, z: C, theta: C, e: nat)
    ensures Conj(Add(s, Mul(Conj(z), Power(theta, e)))) == Add(Conj(s), Mul(z, Power(Conj(theta), e)))
  {
    ConjMul(Conj(z), Power(theta, e));
    ConjPower(theta, e);
  }
}
