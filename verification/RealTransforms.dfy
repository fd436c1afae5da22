/** rdft as it is called: the transform of reals, and back, after any earlier calls. */
module RealTransforms {
  import opened Words
  import opened Complex
  import opened Dft
  import opened FourierLaws
  import opened RealFft
  import opened Cdft
  import opened Rdft
  import opened CosineTables

  /** r holds the transform of the reals in s at 0 < k < n/2, and at 0 and n/2 in front. */
  ghost predicate IsRealTransform(r: seq<C>, s: seq<C>, theta: C)
  {
    |r| == |s| > 0 && (forall k: nat :: 0 < k < |s| ==> r[k] == Transform(Reals(s), theta, k)) &&
    Transform(Reals(s), theta, 0) == C(r[0].re, 0.0) && Transform(Reals(s), theta, |s|) == C(r[0].im, 0.0)
  }

  lemma ForwardTransforms(n: nat, w: array<real>, nw: nat, nc: nat, K: nat, K0: nat, omega: C, theta: C, s: seq<C>)
    requires RealTables(n, w, nw, nc, K, K0, omega, theta) && |s| == Pow(2, K)
    ensures IsRealTransform(Packed(Spectrum(n, w[nw..nw + nc], nc, K, theta, s)), s, theta)
  {
    hide *;
    TableSizes(n, w, nw, nc, K, K0, omega, theta);
    var r := Packed(Spectrum(n, w[nw..nw + nc], nc, K, theta, s));
    SpectrumMeans(n, w, nw, nc, K, K0, omega, theta, s, 0);
    forall k: nat | 0 < k < |s| ensures r[k] == Transform(Reals(s), theta, k) {
      SpectrumMeans(n, w, nw, nc, K, K0, omega, theta, s, k);
    }
    IsTransform(r, s, theta);
  }

  lemma IsTransform(r: seq<C>, s: seq<C>, theta: C)
    requires |r| == |s| > 0 && forall k: nat :: 0 < k < |s| ==> r[k] == Transform(Reals(s), theta, k)
    requires Transform(Reals(s), theta, 0) == C(r[0].re, 0.0) && Transform(Reals(s), theta, |s|) == C(r[0].im, 0.0)
    ensures IsRealTransform(r, s, theta)
  {
    hide Transform, Reals;
  }

  lemma PackedScaled(x: real, b: seq<C>)
    requires |b| > 0
    ensures Packed(Scale(C(x, 0.0), Unpacked(b))) == Scale(C(x, 0.0), b)
  {
    var X, z, u := C(x, 0.0), b[0], Unpacked(b)[0];
    RealTimes(x, z);
    RealTimes(x, u);
    hide Mul;
    assert Scale(X, Unpacked(b))[0] == C(x * u.re, x * u.im) && Scale(X, b)[0] == C(x * z.re, x * z.im);
    PackedFront(x, z, u);
    assert Packed(Scale(X, Unpacked(b)))[0] == Scale(X, b)[0];
  }

  lemma PackedFront(x: real, z: C, u: C)
    requires u == C(z.re - 0.5 * (z.re - z.im), 0.5 * (z.re - z.im))
    ensures x * u.re + x * u.im == x * z.re && x * u.re - x * u.im == x * z.im
  {
    RealDistribute(x, u.re, u.im);
    assert u.re + u.im == z.re && u.re - u.im == z.im;
  }

  /** What the backward transform leaves has the input, n/2 times as large, for its transform. */
  lemma BackwardTransforms(n: nat, w: array<real>, nw: nat, nc: nat, K: nat, K0: nat, omega: C, theta: C, b: seq<C>)
    requires RealTables(n, w, nw, nc, K, K0, omega, theta) && |b| == Pow(2, K)
    ensures |b| > 0
    ensures IsRealTransform(Scale(C(Pow(2, K) as real, 0.0), b),
                            Rebuilt(n, w[nw..nw + nc], nc, K, theta, Unpacked(b)), theta)
  {
    hide *;
    TableSizes(n, w, nw, nc, K, K0, omega, theta);
    var s := Rebuilt(n, w[nw..nw + nc], nc, K, theta, Unpacked(b));
    ForwardTransforms(n, w, nw, nc, K, K0, omega, theta, s);
    SpectrumOfRebuilt(n, w, nw, nc, K, K0, omega, theta, Unpacked(b));
    PackedScaled(Pow(2, K) as real, b);
  }

  /** rdft. */
  method CallRdft(n: nat, isgn: int, a: array<real>, ip: array<nat>, w: array<real>, wave: (nat, nat) -> C,
                  ghost root: nat -> C, ghost K: nat, ghost K0: nat, ghost d0: nat)
    returns (ghost K1: nat, ghost d1: nat)
    requires n == 2 * Pow(2, K) && n <= a.Length && a != w
    requires Angles(root) && IsWave(wave, root) && TablesReady(ip, w, root, K0, d0)
    requires NewFactors(n, ip[0]) + NewCosines(false, n, ip[0], ip[1]) <= w.Length
    requires n > 4 ==> 2 + Pow(2, K / 2) <= ip.Length
    modifies a, ip, w
    ensures TablesReady(ip, w, root, K1, d1)
    ensures ip[0] == NewFactors(n, old(ip[0])) && ip[1] == NewCosines(false, n, old(ip[0]), old(ip[1]))
    ensures isgn >= 0 ==> IsRealTransform(Entries(a, n), old(Entries(a, n)), root(K + 1))
    ensures isgn < 0 ==>
      IsRealTransform(Scale(C(Pow(2, K) as real, 0.0), old(Entries(a, n))), Entries(a, n), root(K + 1))
  {
    hide *;
    ghost var s, theta := Entries(a, n), root(K + 1);
    HalfSize(n, K);
    K1, d1 := NeedTables(false, n, ip, w, wave, root, K, K0, d0);
    assert Entries(a, n) == s;
    TablesAre(ip, w, root, K1, d1);
    var nw, nc := ip[0], ip[1];
    if isgn >= 0 {
      ForwardTransforms(n, w, nw, nc, K, K1, root(K1), theta, s);
      RdftForward(n, a, ip, w, nw, nc, K, K1, root(K1), theta);
    } else {
      BackwardTransforms(n, w, nw, nc, K, K1, root(K1), theta, s);
      RdftBackward(n, a, ip, w, nw, nc, K, K1, root(K1), theta);
    }
    ReadyFrom(ip, w, K1, root(K1));
    TablesFrom(ip, w, root, K1, d1);
  }

  lemma HalfSize(n: nat, K: nat)
    requires n == 2 * Pow(2, K)
    ensures n / 2 == Pow(2, K) > 0
  {
  }
}
