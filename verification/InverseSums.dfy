/** The inverse real transform as the documented sum of cosines and sines. */
module InverseSums {
  import opened Words
  import opened Complex
  import opened Dft
  import opened FourierLaws
  import opened RealFft
  import opened Ddct
  import opened CosineTables
  import opened RealTransforms
  import opened CosineSums
  import opened RealAlgebra

  /** The terms of R[m] cos and I[m] sin of 2 pi m k / n, for 0 < m < h; theta is the turn by 2 pi / n. */
  function Terms(b: seq<C>, theta: C, k: nat, h: nat): real
    requires h <= |b|
  {
    if h <= 1 then 0.0 else Terms(b, theta, k, h - 1) + Wave(b[h - 1], Power(theta, (h - 1) * k))
  }

  function Wave(x: C, z: C): real
  {
    Product(x.re, z.re) + Product(x.im, z.im)
  }

  /** Half of R[0] and half of R[n/2] cos(pi k), which stand in the first entry, and the other terms. */
  function InverseSum(b: seq<C>, theta: C, k: nat): real
    requires |b| > 0
  {
    (b[0].re + Product(b[0].im, Power(theta, |b| * k).re)) / 2.0 + Terms(b, theta, k, |b|)
  }

  /** The setting: the transform of the reals in s is N times b. */
  ghost predicate Inverts(b: seq<C>, s: seq<C>, theta: C, N: nat)
  {
    N > 0 && |b| == |s| == N && Norm(theta) == 1.0 && Power(theta, N) == C(-1.0, 0.0) &&
    IsRealTransform(Scale(C(N as real, 0.0), b), s, theta)
  }

  lemma InvertsIs(b: seq<C>, s: seq<C>, theta: C, N: nat)
    requires Inverts(b, s, theta, N)
    ensures N > 0 && |b| == |s| == N && Norm(theta) == 1.0 && Power(theta, N) == C(-1.0, 0.0)
    ensures IsRealTransform(Scale(C(N as real, 0.0), b), s, theta) && |Reals(s)| == 2 * N && AllReal(Reals(s))
  {
    hide Norm, Power, IsRealTransform;
  }

  lemma BeatOfWave(n: real, x: C, z: C, r: C)
    requires r == C(n * x.re, n * x.im)
    ensures Mul(r, Conj(z)).re == n * Wave(x, z)
  {
    Triple(n, x.re, z.re);
    Triple(n, x.im, z.im);
    RealDistribute(n, x.re * z.re, x.im * z.im);
    assert Mul(r, Conj(z)).re == (n * x.re) * z.re + (n * x.im) * z.im;
  }

  lemma InnerWave(b: seq<C>, s: seq<C>, theta: C, N: nat, k: nat, m: nat)
    requires Inverts(b, s, theta, N) && 0 < m < N
    ensures |Reals(s)| == 2 * N && |b| == N
    ensures Beats(All(Reals(s), theta), theta, k)[m] == (N as real) * Wave(b[m], Power(theta, m * k))
  {
    hide *;
    InvertsIs(b, s, theta, N);
    var r := Scale(C(N as real, 0.0), b);
    EntryOf(r, s, theta, m);
    ScaledEntry(N as real, b, m);
    CosineSums.BeatIs(Reals(s), theta, k, m);
    ConjPower(theta, m * k);
    BeatOfWave(N as real, b[m], Power(theta, m * k), r[m]);
  }

  lemma OuterWaves(b: seq<C>, s: seq<C>, theta: C, N: nat, k: nat)
    requires Inverts(b, s, theta, N)
    ensures |Reals(s)| == 2 * N && |b| == N > 0
    ensures var t, n := Beats(All(Reals(s), theta), theta, k), N as real;
      t[0] == n * b[0].re && t[N] == n * Product(b[0].im, Power(theta, N * k).re)
  {
    hide *;
    InvertsIs(b, s, theta, N);
    var r, n := Scale(C(N as real, 0.0), b), N as real;
    EntryOf(r, s, theta, 0);
    EntryOf(r, s, theta, N);
    ScaledEntry(n, b, 0);
    CosineSums.BeatIs(Reals(s), theta, k, 0);
    CosineSums.BeatIs(Reals(s), theta, k, N);
    ConjPower(theta, 0 * k);
    ConjPower(theta, N * k);
    NoTurns(theta, k);
    BeatOfWave(n, C(b[0].re, 0.0), Power(theta, 0 * k), C(r[0].re, 0.0));
    BeatOfWave(n, C(b[0].im, 0.0), Power(theta, N * k), C(r[0].im, 0.0));
    RealWave(b[0].re, Power(theta, 0 * k));
    RealWave(b[0].im, Power(theta, N * k));
  }

  lemma NoTurns(theta: C, k: nat)
    ensures Power(theta, 0 * k) == ONE
  {
    assert 0 * k == 0;
  }

  lemma RealWave(x: real, z: C)
    ensures Wave(C(x, 0.0), z) == Product(x, z.re)
    ensures z == ONE ==> Wave(C(x, 0.0), z) == x
  {
  }

  lemma {:induction false} PairsOfWaves(b: seq<C>, s: seq<C>, theta: C, N: nat, k: nat, h: nat)
    requires Inverts(b, s, theta, N) && h <= N
    ensures |Reals(s)| == 2 * N && |b| == N
    ensures PairDot(Beats(All(Reals(s), theta), theta, k), CosineSums.Ones(2 * N), h) ==
      (2.0 * (N as real)) * Terms(b, theta, k, h)
  {
    hide *;
    InvertsIs(b, s, theta, N);
    var t := Beats(All(Reals(s), theta), theta, k);
    PairStep(t, N, h);
    TermStep(b, theta, k, h);
    if h > 1 {
      PairsOfWaves(b, s, theta, N, k, h - 1);
      InnerWave(b, s, theta, N, k, h - 1);
      FullOfHalf(theta, N);
      BeatMirror(Reals(s), theta, k, h - 1);
      TwiceOf(N as real, Terms(b, theta, k, h - 1), Wave(b[h - 1], Power(theta, (h - 1) * k)));
    }
  }

  lemma TermStep(b: seq<C>, theta: C, k: nat, h: nat)
    requires h <= |b|
    ensures Terms(b, theta, k, h) ==
      if h <= 1 then 0.0 else Terms(b, theta, k, h - 1) + Wave(b[h - 1], Power(theta, (h - 1) * k))
  {
    hide Wave, Power;
  }

  /** What rdft leaves backward is the documented sum, at every place. */
  lemma RealInverse(b: seq<C>, s: seq<C>, theta: C, K: nat, k: nat)
    requires Inverts(b, s, theta, Pow(2, K)) && k < 2 * |s|
    ensures |b| > 0 && Flat(s)[k] == InverseSum(b, theta, k)
  {
    hide *;
    InvertsIs(b, s, theta, Pow(2, K));
    var N := |s|;
    WholeSum(s, theta, K, k);
    var t := Beats(All(Reals(s), theta), theta, k);
    DotPaired(t, CosineSums.Ones(2 * N), N);
    OnesProduct(t, N, 0);
    OnesProduct(t, N, N);
    OuterWaves(b, s, theta, N, k);
    PairsOfWaves(b, s, theta, N, k, N);
    HalvesTogether(N, Flat(s)[k], b[0].re, Product(b[0].im, Power(theta, N * k).re), Terms(b, theta, k, N));
    SumIs(b, theta, k);
  }

  lemma SumIs(b: seq<C>, theta: C, k: nat)
    requires |b| > 0
    ensures InverseSum(b, theta, k) ==
      (b[0].re + Product(b[0].im, Power(theta, |b| * k).re)) / 2.0 + Terms(b, theta, k, |b|)
  {
    hide Power, Product, Terms;
  }

  lemma HalvesTogether(N: nat, y: real, p: real, q: real, c: real)
    requires N > 0 && y * ((2 * N) as real) == (N as real) * p + (N as real) * q + (2.0 * (N as real)) * c
    ensures y == (p + q) / 2.0 + c
  {
    var n := N as real;
    var h := (p + q) / 2.0;
    assert (2.0 * n) * (h + c) == n * p + n * q + (2.0 * n) * c by {
      RealDistribute(2.0 * n, h, c);
      RealDistribute(n, p, q);
      Triple(n, 2.0, h);
      assert 2.0 * h == p + q;
    }
    SameSums(N, y, h + c);
  }
}
