/** rdft: the transform of real numbers, and back. */
module Rdft {
  import opened Words
  import opened Complex
  import opened BitReversal
  import opened Dft
  import opened FourierLaws
  import opened Butterflies
  import opened RealFft
  import opened Cdft

  /** The tables in w for n = 2^(K+1) reals: factors in its first nw entries, half cosines in the nc after them,
      and theta, the kernel of the reals that both belong to. */
  ghost predicate RealTables(n: nat, w: array<real>, nw: nat, nc: nat, K: nat, K0: nat, omega: C, theta: C)
    reads w
  {
    n == 2 * Pow(2, K) && nw + nc <= w.Length &&
    (n > 8 ==> 3 <= K <= K0 && nw == Pow(2, K0 - 1) && Table(Entries(w, nw), K0, omega)) &&
    Mul(theta, theta) == KernelFor(omega, K0, K) && RealKernel(theta, Pow(2, K)) &&
    (n > 4 ==>
      Pow(2, K) <= 2 * nc && HalfCircle(w[nw..nw + nc]) && Reaches(w[nw..nw + nc], StepsOf(nc, Pow(2, K)), Pow(2, K)) &&
      HalfTable(w[nw..nw + nc], StepsOf(nc, Pow(2, K)), Pow(2, K), theta))
  }

  lemma TableSizes(n: nat, w: array<real>, nw: nat, nc: nat, K: nat, K0: nat, omega: C, theta: C)
    requires RealTables(n, w, nw, nc, K, K0, omega, theta)
    ensures n == 2 * Pow(2, K) && Pow(2, K) > 0 && nw + nc <= w.Length && Mul(theta, theta) == KernelFor(omega, K0, K)
    ensures n > 4 ==> Pow(2, K) % 2 == 0 && Pow(2, K) <= 2 * nc
    ensures n > 4 ==> HalfCircle(w[nw..nw + nc]) && Reaches(w[nw..nw + nc], StepsOf(nc, Pow(2, K)), Pow(2, K))
  {
    hide KernelFor, HalfTable, HalfCircle, Table, RealKernel, Mul, Reaches;
    if K > 0 {
      PowerOfTwo(K - 1);
    } else {
      SmallPowers();
    }
  }

  /** The part of the tables that the passes of 2^K numbers read. */
  lemma PassServes(n: nat, w: array<real>, nw: nat, nc: nat, K: nat, K0: nat, omega: C, theta: C, nu: nat)
    requires RealTables(n, w, nw, nc, K, K0, omega, theta) && nu == if n > 8 then nw else 0
    ensures nu <= w.Length && TableServes(n, w, nu)
    ensures K >= 3 ==> K <= K0 && |Entries(w, nu)| == Pow(2, K0 - 2) && Table(Entries(w, nu), K0, omega)
  {
    SizesAre(n, K);
    hide KernelFor, HalfTable, HalfCircle, Table, RealKernel, Mul, Reaches, DoubleAngle;
    if K >= 3 {
      PowMono(2, K - 1, K0 - 1);
      PowerOfTwo(K - 1);
      hide Pow;
      LargeEnough(n, K, K0, nw);
      TableDoublesAngles(Entries(w, nu), K0, omega);
    }
  }

  /** What the passes compute. */
  lemma PassTables(n: nat, w: array<real>, nw: nat, nc: nat, K: nat, K0: nat, omega: C, theta: C, nu: nat, s: seq<C>)
    requires RealTables(n, w, nw, nc, K, K0, omega, theta) && nu == (if n > 8 then nw else 0) && |s| == Pow(2, K)
    ensures nu <= w.Length && TableServes(n, w, nu) && Primitive(Mul(theta, theta), K)
    ensures Network(Entries(w, nu), K, Reversed(K, s), 0) == All(s, Mul(theta, theta))
  {
    hide *;
    PassServes(n, w, nw, nc, K, K0, omega, theta, nu);
    TableSizes(n, w, nw, nc, K, K0, omega, theta);
    var v := ATable(Entries(w, nu), K0, omega, K);
    ForwardIs(v, K, KernelFor(omega, K0, K), s);
    assert Network(Entries(w, nu), K, Reversed(K, s), 0) == Network(v, K, Reversed(K, s), 0);
  }

  /** The first entry, which holds the transforms of even and odd reals, as the first and the middle entry
      of the transform of the reals; and back. */
  function Packed(s: seq<C>): (r: seq<C>)
    requires |s| > 0
    ensures |r| == |s|
  {
    s[0 := C(s[0].re + s[0].im, s[0].re - s[0].im)]
  }

  function Unpacked(s: seq<C>): (r: seq<C>)
    requires |s| > 0
    ensures |r| == |s|
  {
    var im := 0.5 * (s[0].re - s[0].im);
    s[0 := C(s[0].re - im, im)]
  }

  lemma UnpackedPacked(s: seq<C>)
    requires |s| > 0
    ensures Unpacked(Packed(s)) == s
  {
    assert Unpacked(Packed(s))[0] == s[0];
  }

  /** The numbers in the array after the passes and rftfsub. */
  ghost function Spectrum(n: nat, c: seq<real>, nc: nat, K: nat, theta: C, s: seq<C>): (r: seq<C>)
    requires n == 2 * Pow(2, K) && |s| == Pow(2, K)
    requires n > 4 ==> |c| == nc && Reaches(c, StepsOf(nc, Pow(2, K)), Pow(2, K))
    ensures |r| == |s|
  {
    if n > 4 then RealForward(c, StepsOf(nc, Pow(2, K)), All(s, Mul(theta, theta))) else All(s, Mul(theta, theta))
  }

  /** The numbers after rftbsub and the backward passes. */
  ghost function Rebuilt(n: nat, c: seq<real>, nc: nat, K: nat, theta: C, b: seq<C>): (r: seq<C>)
    requires n == 2 * Pow(2, K) && |b| == Pow(2, K)
    requires n > 4 ==> |c| == nc && Reaches(c, StepsOf(nc, Pow(2, K)), Pow(2, K))
    ensures |r| == |b|
  {
    var t := Mul(theta, theta);
    if n > 4 then Conjugates(All(RealBackward(c, StepsOf(nc, Pow(2, K)), b), t)) else All(b, t)
  }

  /** The passes and rftfsub. */
  method ForwardPasses(n: nat, a: array<real>, ip: array<nat>, w: array<real>, nw: nat, nc: nat,
                       ghost K: nat, ghost K0: nat, ghost omega: C, ghost theta: C)
    requires n <= a.Length && a != w && RealTables(n, w, nw, nc, K, K0, omega, theta)
    requires n > 4 ==> 2 + Pow(2, K / 2) <= ip.Length
    modifies a, ip
    ensures forall j :: 0 <= j < 2 && j < ip.Length ==> ip[j] == old(ip[j])
    ensures nw + nc <= w.Length && Entries(a, n) == Spectrum(n, w[nw..nw + nc], nc, K, theta, old(Entries(a, n)))
    ensures RealTables(n, w, nw, nc, K, K0, omega, theta)
    ensures forall i :: n <= i < a.Length ==> a[i] == old(a[i])
  {
    hide *;
    ghost var s := Entries(a, n);
    var nu := if n > 8 then nw else 0;
    TableSizes(n, w, nw, nc, K, K0, omega, theta);
    SizesAre(n, K);
    PassTables(n, w, nw, nc, K, K0, omega, theta, nu, s);
    CdftForward(n, a, ip, w, nu, K);
    if n > 4 {
      Rftfsub(n, a, nc, w, nw, Pow(2, K));
    }
    SpectrumIs(n, w[nw..nw + nc], nc, K, theta, s);
  }

  /** rftbsub and the backward passes. */
  method BackwardPasses(n: nat, a: array<real>, ip: array<nat>, w: array<real>, nw: nat, nc: nat,
                        ghost K: nat, ghost K0: nat, ghost omega: C, ghost theta: C)
    requires n <= a.Length && a != w && RealTables(n, w, nw, nc, K, K0, omega, theta)
    requires n > 4 ==> 2 + Pow(2, K / 2) <= ip.Length
    modifies a, ip
    ensures forall j :: 0 <= j < 2 && j < ip.Length ==> ip[j] == old(ip[j])
    ensures nw + nc <= w.Length && Entries(a, n) == Rebuilt(n, w[nw..nw + nc], nc, K, theta, old(Entries(a, n)))
    ensures RealTables(n, w, nw, nc, K, K0, omega, theta)
    ensures forall i :: n <= i < a.Length ==> a[i] == old(a[i])
  {
    hide *;
    ghost var b := Entries(a, n);
    var nu := if n > 8 then nw else 0;
    TableSizes(n, w, nw, nc, K, K0, omega, theta);
    SizesAre(n, K);
    RebuiltIs(n, w[nw..nw + nc], nc, K, theta, b);
    if n > 4 {
      Rftbsub(n, a, nc, w, nw, Pow(2, K));
      PassTables(n, w, nw, nc, K, K0, omega, theta, nu, Entries(a, n));
      Bitrv2(n, ip, 2, a, K + 1);
      Cftbsub(n, a, w, nu, K);
    } else {
      PassTables(n, w, nw, nc, K, K0, omega, theta, nu, b);
      TinyReversal(Entries(w, nu), K, b);
      if n == 4 {
        Cftfsub(n, a, w, nu, K);
      }
    }
  }

  lemma RebuiltIs(n: nat, c: seq<real>, nc: nat, K: nat, theta: C, b: seq<C>)
    requires n == 2 * Pow(2, K) && |b| == Pow(2, K)
    requires n > 4 ==> |c| == nc && Reaches(c, StepsOf(nc, Pow(2, K)), Pow(2, K))
    ensures Rebuilt(n, c, nc, K, theta, b) ==
      if n > 4 then Conjugates(All(RealBackward(c, StepsOf(nc, Pow(2, K)), b), Mul(theta, theta)))
      else All(b, Mul(theta, theta))
  {
  }

  /** The transform of the reals in a: entry k of the result, for 0 < k < n/2, and entries 0 and n/2 in front. */
  method RdftForward(n: nat, a: array<real>, ip: array<nat>, w: array<real>, nw: nat, nc: nat,
                     ghost K: nat, ghost K0: nat, ghost omega: C, ghost theta: C)
    requires n <= a.Length && a != w && RealTables(n, w, nw, nc, K, K0, omega, theta)
    requires n > 4 ==> 2 + Pow(2, K / 2) <= ip.Length
    modifies a, ip
    ensures forall j :: 0 <= j < 2 && j < ip.Length ==> ip[j] == old(ip[j])
    ensures nw + nc <= w.Length
    ensures Entries(a, n) == Packed(Spectrum(n, w[nw..nw + nc], nc, K, theta, old(Entries(a, n))))
    ensures RealTables(n, w, nw, nc, K, K0, omega, theta)
  {
    hide *;
    TableSizes(n, w, nw, nc, K, K0, omega, theta);
    ForwardPasses(n, a, ip, w, nw, nc, K, K0, omega, theta);
    PackedIs(Entries(a, n));
    var z0, z1 := GetEntry(n, a, 0, 0);
    var xi := z0 - z1;
    SetEntry(n, a, 0, C(z0 + z1, xi), 0);
  }

  lemma SpectrumIs(n: nat, c: seq<real>, nc: nat, K: nat, theta: C, s: seq<C>)
    requires n == 2 * Pow(2, K) && |s| == Pow(2, K)
    requires n > 4 ==> |c| == nc && Reaches(c, StepsOf(nc, Pow(2, K)), Pow(2, K))
    ensures Spectrum(n, c, nc, K, theta, s) ==
      if n > 4 then RealForward(c, StepsOf(nc, Pow(2, K)), All(s, Mul(theta, theta))) else All(s, Mul(theta, theta))
  {
  }

  lemma PackedIs(s: seq<C>)
    requires |s| > 0
    ensures Packed(s) == s[0 := C(s[0].re + s[0].im, s[0].re - s[0].im)]
    ensures Unpacked(s) == s[0 := C(s[0].re - 0.5 * (s[0].re - s[0].im), 0.5 * (s[0].re - s[0].im))]
  {
  }

  /** The way back. */
  method RdftBackward(n: nat, a: array<real>, ip: array<nat>, w: array<real>, nw: nat, nc: nat,
                      ghost K: nat, ghost K0: nat, ghost omega: C, ghost theta: C)
    requires n <= a.Length && a != w && RealTables(n, w, nw, nc, K, K0, omega, theta)
    requires n > 4 ==> 2 + Pow(2, K / 2) <= ip.Length
    modifies a, ip
    ensures forall j :: 0 <= j < 2 && j < ip.Length ==> ip[j] == old(ip[j])
    ensures nw + nc <= w.Length
    ensures Entries(a, n) == Rebuilt(n, w[nw..nw + nc], nc, K, theta, Unpacked(old(Entries(a, n))))
  {
    hide *;
    TableSizes(n, w, nw, nc, K, K0, omega, theta);
    PackedIs(Entries(a, n));
    var b0, b1 := GetEntry(n, a, 0, 0);
    var im := 0.5 * (b0 - b1);
    SetEntry(n, a, 0, C(b0 - im, im), 0);
    BackwardPasses(n, a, ip, w, nw, nc, K, K0, omega, theta);
  }

  /** The backward passes on the spectrum give the numbers back, 2^K times as large. */
  lemma SpectrumUndone(n: nat, w: array<real>, nw: nat, nc: nat, K: nat, K0: nat, omega: C, theta: C, s: seq<C>)
    requires RealTables(n, w, nw, nc, K, K0, omega, theta) && |s| == Pow(2, K)
    ensures var c := w[nw..nw + nc];
      Rebuilt(n, c, nc, K, theta, Spectrum(n, c, nc, K, theta, s)) == Scale(C(Pow(2, K) as real, 0.0), s)
  {
    hide *;
    TableSizes(n, w, nw, nc, K, K0, omega, theta);
    SizesAre(n, K);
    PassTables(n, w, nw, nc, K, K0, omega, theta, if n > 8 then nw else 0, s);
    var c, ks, t := w[nw..nw + nc], StepsOf(nc, Pow(2, K)), Mul(theta, theta);
    SpectrumIs(n, c, nc, K, theta, s);
    RebuiltIs(n, c, nc, K, theta, Spectrum(n, c, nc, K, theta, s));
    SmallKernels(t, K);
    if K == 0 {
      OneReal(s, t);
    } else {
      if n > 4 {
        BackIsConjugate(c, ks, All(s, t));
        ConjugateAll(All(s, t), t);
      }
      BackAgain(s, t, K);
    }
  }

  /** And the other way round: the spectrum of what the backward passes rebuild. */
  lemma SpectrumOfRebuilt(n: nat, w: array<real>, nw: nat, nc: nat, K: nat, K0: nat, omega: C, theta: C, b: seq<C>)
    requires RealTables(n, w, nw, nc, K, K0, omega, theta) && |b| == Pow(2, K)
    ensures var c := w[nw..nw + nc];
      Spectrum(n, c, nc, K, theta, Rebuilt(n, c, nc, K, theta, b)) == Scale(C(Pow(2, K) as real, 0.0), b)
  {
    hide *;
    TableSizes(n, w, nw, nc, K, K0, omega, theta);
    SizesAre(n, K);
    PassTables(n, w, nw, nc, K, K0, omega, theta, if n > 8 then nw else 0, b);
    var c, ks, t := w[nw..nw + nc], StepsOf(nc, Pow(2, K)), Mul(theta, theta);
    RebuiltIs(n, c, nc, K, theta, b);
    SpectrumIs(n, c, nc, K, theta, Rebuilt(n, c, nc, K, theta, b));
    SmallKernels(t, K);
    if K == 0 {
      OneReal(b, t);
    } else if n > 4 {
      var N, z := Pow(2, K) as real, RealBackward(c, ks, b);
      ConjugateAll(All(z, t), t);
      BackAgain(z, t, K);
      ConjugateTwice(All(Conjugates(All(z, t)), t));
      ConjugateScale(N, z);
      ForwardScale(c, ks, N, Conjugates(z));
      ForwardIsInverse(c, ks, b);
    } else {
      BackAgain(b, t, K);
    }
  }

  lemma ConjugateScale(r: real, s: seq<C>)
    ensures Conjugates(Scale(C(r, 0.0), s)) == Scale(C(r, 0.0), Conjugates(s))
  {
    forall p: nat | p < |s| ensures Conjugates(Scale(C(r, 0.0), s))[p] == Scale(C(r, 0.0), Conjugates(s))[p] {
      assert Conj(Mul(C(r, 0.0), s[p])) == Mul(C(r, 0.0), Conj(s[p]));
    }
  }

  lemma ConjugateTwice(s: seq<C>)
    ensures Conjugates(Conjugates(s)) == s
  {
  }

  lemma SmallKernels(t: C, K: nat)
    requires Primitive(t, K)
    ensures K == 0 ==> t == ONE && Pow(2, K) == 1
    ensures K == 1 ==> Conj(t) == t
  {
    if K == 1 {
      PowerFirst(t);
    }
  }

  lemma OneReal(s: seq<C>, t: C)
    requires |s| == 1 && t == ONE
    ensures All(All(s, t), t) == Scale(C(1.0, 0.0), s)
  {
    OnePoint(s, t, ONE);
    OnePoint(All(s, t), t, ONE);
    MulOne(s[0]);
    MulOne(All(s, t)[0]);
    assert Power(ONE, 0) == ONE;
    MulOne(Transform(s, t, 0));
    MulOne(Transform(All(s, t), t, 0));
  }

  lemma ConjugateAll(x: seq<C>, t: C)
    ensures Conjugates(All(Conjugates(x), t)) == All(x, Conj(t))
  {
    hide Mul, Conj, Power;
    forall j: nat | j < |x| ensures Conjugates(All(Conjugates(x), t))[j] == All(x, Conj(t))[j] {
      ConjugateSum(x, t, j, |x|);
    }
  }

  /** rdft one way and then the other gives the reals back, n/2 times as large. */
  method RealForwardAndBackward(n: nat, a: array<real>, ip: array<nat>, w: array<real>, nw: nat, nc: nat,
                                ghost K: nat, ghost K0: nat, ghost omega: C, ghost theta: C)
    requires n <= a.Length && a != w && RealTables(n, w, nw, nc, K, K0, omega, theta)
    requires n > 4 ==> 2 + Pow(2, K / 2) <= ip.Length
    modifies a, ip
    ensures Entries(a, n) == Scale(C(Pow(2, K) as real, 0.0), old(Entries(a, n)))
  {
    hide *;
    ghost var s := Entries(a, n);
    TableSizes(n, w, nw, nc, K, K0, omega, theta);
    RdftForward(n, a, ip, w, nw, nc, K, K0, omega, theta);
    UnpackedPacked(Spectrum(n, w[nw..nw + nc], nc, K, theta, s));
    SpectrumUndone(n, w, nw, nc, K, K0, omega, theta, s);
    RdftBackward(n, a, ip, w, nw, nc, K, K0, omega, theta);
  }

  /** The sum of reals is real. */
  lemma {:induction false} PlainSum(s: seq<C>, t: C, n: nat)
    requires AllReal(s) && n <= |s|
    ensures Sum(s, t, 0, n).im == 0.0
  {
    if n > 0 {
      PlainSum(s, t, n - 1);
      assert (n - 1) * 0 == 0 && Power(t, 0) == ONE;
      MulOne(s[n - 1]);
      assert Sum(s, t, 0, n) == Add(Sum(s, t, 0, n - 1), Mul(s[n - 1], Power(t, (n - 1) * 0)));
    }
  }

  /** Entries 0 and m of the transform of the reals, from the even and the odd reals. */
  lemma FirstAndMiddle(s: seq<C>, theta: C, m: nat)
    requires m == |s| > 0 && RealKernel(theta, m)
    ensures var z := Transform(s, Mul(theta, theta), 0);
      Transform(Reals(s), theta, 0) == C(z.re + z.im, 0.0) && Transform(Reals(s), theta, m) == C(z.re - z.im, 0.0)
  {
    hide *;
    var t := Mul(theta, theta);
    var e, o := Evens(Reals(s)), Odds(Reals(s));
    KernelEnds(theta, m);
    PairsApart(s);
    PlainSum(e, t, m);
    PlainSum(o, t, m);
    TransformIsSum(e, t, 0);
    TransformIsSum(o, t, 0);
    TransformIsSum(e, t, m);
    TransformIsSum(o, t, m);
    RealEntry(s, theta, 0);
    RealEntry(s, theta, m);
    PackedEntry(s, t, 0);
    SquareTurns(theta, m);
    SumPeriodic(e, t, 0, m, m);
    SumPeriodic(o, t, 0, m, m);
    EndsAlgebra(Transform(e, t, 0), Transform(o, t, 0));
  }

  lemma KernelEnds(theta: C, m: nat)
    requires RealKernel(theta, m)
    ensures Power(theta, 0) == ONE && Power(theta, m) == C(-1.0, 0.0)
    ensures m == 2 ==> Power(theta, 1) == I
  {
  }

  lemma EndsAlgebra(E: C, O: C)
    requires E.im == 0.0 && O.im == 0.0
    ensures Add(E, Mul(I, O)) == C(E.re, O.re)
    ensures Add(E, Mul(ONE, O)) == C(E.re + O.re, 0.0) && Add(E, Mul(C(-1.0, 0.0), O)) == C(E.re - O.re, 0.0)
  {
    TimesI(O.re, O.im);
    MulOne(O);
  }

  /** What rdft leaves in the array: the transform of the reals at 0 < k < n/2, and at 0 and n/2 in front. */
  lemma SpectrumMeans(n: nat, w: array<real>, nw: nat, nc: nat, K: nat, K0: nat, omega: C, theta: C, s: seq<C>, k: nat)
    requires RealTables(n, w, nw, nc, K, K0, omega, theta) && |s| == Pow(2, K) && k < |s|
    ensures var r, x := Packed(Spectrum(n, w[nw..nw + nc], nc, K, theta, s)), Reals(s);
      if k > 0 then r[k] == Transform(x, theta, k)
      else Transform(x, theta, 0) == C(r[0].re, 0.0) && Transform(x, theta, |s|) == C(r[0].im, 0.0)
  {
    var c, ks, t := w[nw..nw + nc], StepsOf(nc, Pow(2, K)), Mul(theta, theta);
    hide *;
    TableSizes(n, w, nw, nc, K, K0, omega, theta);
    if k == 0 {
      FrontMeans(n, w, nw, nc, K, K0, omega, theta, s);
    } else {
      EntryMeans(n, w, nw, nc, K, K0, omega, theta, s, k);
    }
  }

  lemma FrontMeans(n: nat, w: array<real>, nw: nat, nc: nat, K: nat, K0: nat, omega: C, theta: C, s: seq<C>)
    requires RealTables(n, w, nw, nc, K, K0, omega, theta) && |s| == Pow(2, K) && |s| > 0
    ensures var r, x := Packed(Spectrum(n, w[nw..nw + nc], nc, K, theta, s)), Reals(s);
      Transform(x, theta, 0) == C(r[0].re, 0.0) && Transform(x, theta, |s|) == C(r[0].im, 0.0)
  {
    hide *;
    TableSizes(n, w, nw, nc, K, K0, omega, theta);
    var c, ks, t := w[nw..nw + nc], StepsOf(nc, Pow(2, K)), Mul(theta, theta);
    KernelTables(n, w, nw, nc, K, K0, omega, theta);
    SpectrumIs(n, c, nc, K, theta, s);
    PackedIs(Spectrum(n, c, nc, K, theta, s));
    AllAt(s, t, 0);
    FirstAndMiddle(s, theta, |s|);
    if n > 4 {
      FirstStays(c, ks, All(s, t));
    }
  }

  lemma EntryMeans(n: nat, w: array<real>, nw: nat, nc: nat, K: nat, K0: nat, omega: C, theta: C, s: seq<C>, k: nat)
    requires RealTables(n, w, nw, nc, K, K0, omega, theta) && |s| == Pow(2, K) && 0 < k < |s|
    ensures Packed(Spectrum(n, w[nw..nw + nc], nc, K, theta, s))[k] == Transform(Reals(s), theta, k)
  {
    hide *;
    TableSizes(n, w, nw, nc, K, K0, omega, theta);
    var c, ks, t := w[nw..nw + nc], StepsOf(nc, Pow(2, K)), Mul(theta, theta);
    SizesAre(n, K);
    KernelTables(n, w, nw, nc, K, K0, omega, theta);
    SmallPowers();
    SpectrumIs(n, c, nc, K, theta, s);
    PackedIs(Spectrum(n, c, nc, K, theta, s));
    AllAt(s, t, k);
    if n > 4 {
      RealTransform(c, ks, s, theta, k);
    } else {
      MiddleEntry(s, theta);
    }
  }

  lemma KernelTables(n: nat, w: array<real>, nw: nat, nc: nat, K: nat, K0: nat, omega: C, theta: C)
    requires RealTables(n, w, nw, nc, K, K0, omega, theta)
    ensures nw + nc <= w.Length && RealKernel(theta, Pow(2, K))
    ensures n > 4 ==> Reaches(w[nw..nw + nc], StepsOf(nc, Pow(2, K)), Pow(2, K))
    ensures n > 4 ==> HalfTable(w[nw..nw + nc], StepsOf(nc, Pow(2, K)), Pow(2, K), theta)
  {
    hide KernelFor, HalfTable, HalfCircle, Table, RealKernel, Mul, Reaches, StepsOf;
  }

  lemma AllAt(s: seq<C>, t: C, k: nat)
    requires k < |s|
    ensures All(s, t)[k] == Transform(s, t, k) && All(s, t)[0] == Transform(s, t, 0)
  {
  }

  lemma FirstStays(c: seq<real>, ks: nat, z: seq<C>)
    requires Reaches(c, ks, |z|)
    ensures |z| > 0 && RealForward(c, ks, z)[0] == z[0]
  {
  }

  lemma MiddleEntry(s: seq<C>, theta: C)
    requires |s| == 2 && RealKernel(theta, 2)
    ensures Transform(s, Mul(theta, theta), 1) == Transform(Reals(s), theta, 1)
  {
    hide *;
    KernelEnds(theta, 2);
    RealEntry(s, theta, 1);
    PackedEntry(s, Mul(theta, theta), 1);
  }
}
