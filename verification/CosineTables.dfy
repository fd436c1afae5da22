/** makect, and the table part of rdft, ddct and ddst: what the tables hold after any calls. */
module CosineTables {
  import opened Words
  import opened Complex
  import opened Dft
  import opened FourierLaws
  import opened RealFft
  import opened Butterflies
  import opened Cft
  import opened Cdft
  import opened Rdft
  import Ddct

  // ----- the angles -----

  ghost predicate Halves(root: nat -> C, k: nat)
  {
    Mul(root(k + 1), root(k + 1)) == root(k)
  }

  ghost predicate IsUnit(root: nat -> C, k: nat)
  {
    Norm(root(k)) == 1.0
  }

  /** root(k) is the 2^k-th part of a turn: -1, i, and then always half the angle. */
  ghost predicate Angles(root: nat -> C)
  {
    root(0) == ONE && root(1) == C(-1.0, 0.0) && root(2) == I &&
    (forall k: nat :: Halves(root, k)) && forall k: nat :: IsUnit(root, k)
  }

  ghost predicate WaveAt(wave: (nat, nat) -> C, root: nat -> C, K: nat, j: nat)
  {
    wave(Pow(2, K), j) == Power(root(K + 2), j)
  }

  /** wave(n, j) has the cosine and the sine of j times atan(1) / (n / 2). */
  ghost predicate IsWave(wave: (nat, nat) -> C, root: nat -> C)
  {
    forall K: nat, j: nat :: WaveAt(wave, root, K, j)
  }

  lemma {:induction false} RootPower(root: nat -> C, k: nat, d: nat)
    requires Angles(root)
    ensures Power(root(k + d), Pow(2, d)) == root(k)
    decreases d
  {
    hide Power, Mul;
    if d == 0 {
      PowerFirst(root(k));
    } else {
      RootPower(root, k + 1, d - 1);
      assert Halves(root, k) && k + 1 + (d - 1) == k + d;
      TwicePower(root(k + d), Pow(2, d - 1));
    }
  }

  lemma TwicePower(z: C, n: nat)
    ensures Power(z, 2 * n) == Mul(Power(z, n), Power(z, n))
  {
    PowerAdd(z, n, n);
  }

  lemma RootFacts(root: nat -> C, k: nat)
    requires Angles(root)
    ensures Norm(root(k)) == 1.0 && Mul(root(k + 1), root(k + 1)) == root(k)
    ensures root(0) == ONE && root(1) == C(-1.0, 0.0) && root(2) == I
  {
    assert IsUnit(root, k) && Halves(root, k);
  }

  /** The waves are what makewt needs for a table of 2^(K-1) reals. */
  lemma WaveServes(wave: (nat, nat) -> C, root: nat -> C, K: nat)
    requires Angles(root) && IsWave(wave, root) && K >= 2
    ensures WaveOf(wave, Pow(2, K - 1), root(K))
  {
    hide Power, Norm, Mul, Pow;
    var nw := Pow(2, K - 1);
    RootFacts(root, K);
    RootPower(root, 2, K - 2);
    PowerOfTwo(K - 2);
    forall q: nat | q <= nw / 4
      ensures wave(nw, 2 * q) == Power(root(K), q)
    {
      assert WaveAt(wave, root, K - 1, 2 * q);
      EvenStep(root, K, q);
    }
  }

  lemma EvenStep(root: nat -> C, K: nat, q: nat)
    requires Angles(root)
    ensures Power(root(K + 1), 2 * q) == Power(root(K), q)
  {
    hide *;
    PowerPower(root(K + 1), 2, q);
    RootFacts(root, K);
    SquareIs(root(K + 1));
  }

  lemma SquareIs(z: C)
    ensures Power(z, 2) == Mul(z, z)
  {
    PowerFirst(z);
    assert Power(z, 2) == Mul(z, Power(z, 1));
  }

  // ----- the table of half cosines -----

  /** Half the cosines of the powers of phi, with their sines from the other end, and one whole cosine in front. */
  ghost predicate HalfCosines(c: seq<real>, phi: C)
  {
    |c| > 1 && c[0] == Power(phi, |c| / 2).re &&
    forall j: nat :: 0 < j < |c| ==> c[j] == Power(phi, j).re / 2.0 && c[|c| - j] == Power(phi, j).im / 2.0
  }

  /** The first r of the pairs, and the middle, are in place. */
  ghost predicate FilledTo(c: seq<real>, phi: C, r: nat)
  {
    |c| > 1 && c[0] == Power(phi, |c| / 2).re && c[|c| / 2] == Power(phi, |c| / 2).re / 2.0 &&
    forall j: nat :: 0 < j < r && 2 * j < |c| ==> c[j] == Power(phi, j).re / 2.0 && c[|c| - j] == Power(phi, j).im / 2.0
  }

  lemma FilledAll(c: seq<real>, phi: C)
    requires |c| > 1 && |c| % 2 == 0 && FilledTo(c, phi, |c| / 2) && Power(phi, |c|) == I && Norm(phi) == 1.0
    ensures HalfCosines(c, phi)
  {
    hide Power, Norm;
    MiddleIs(phi, |c| / 2);
    assert 2 * (|c| / 2) == |c|;
    forall j: nat | 0 < j < |c|
      ensures c[j] == Power(phi, j).re / 2.0 && c[|c| - j] == Power(phi, j).im / 2.0
    {
      if 2 * j > |c| {
        Mirrored(phi, |c| - j, |c|, Power(phi, |c| - j));
      } else if 2 * j == |c| {
        assert j == |c| / 2;
      }
    }
  }

  lemma MiddleIs(phi: C, h: nat)
    requires Power(phi, 2 * h) == I
    ensures Power(phi, h).re == Power(phi, h).im
  {
    hide *;
    TwicePower(phi, h);
    EighthTurn(Power(phi, h));
  }

  lemma FilledStarts(c: seq<real>, phi: C)
    requires |c| > 1 && c[0] == Power(phi, |c| / 2).re && c[|c| / 2] == Power(phi, |c| / 2).re / 2.0
    ensures FilledTo(c, phi, 1)
  {
    hide Power;
  }

  lemma FilledMore(c: seq<real>, phi: C, j: nat, x: real, y: real)
    requires FilledTo(c, phi, j) && 0 < j && 2 * j < |c| && x == Power(phi, j).re / 2.0 && y == Power(phi, j).im / 2.0
    ensures FilledTo(c[j := x][|c| - j := y], phi, j + 1)
  {
    hide Power;
  }

  /** One cosine and one sine. */
  method FillHalf(nc: nat, c: array<real>, at: nat, wave: (nat, nat) -> C, j: nat, ghost phi: C)
    requires at + nc <= c.Length && 0 < j && 2 * j < nc && wave(nc, j) == Power(phi, j)
    requires FilledTo(c[at..at + nc], phi, j)
    modifies c
    ensures FilledTo(c[at..at + nc], phi, j + 1)
    ensures forall i :: 0 <= i < at ==> c[i] == old(c[i])
  {
    hide *;
    ghost var t := c[at..at + nc];
    var x, y := 0.5 * wave(nc, j).re, 0.5 * wave(nc, j).im;
    FilledMore(t, phi, j, x, y);
    c[at + j] := x;
    c[at + (nc - j)] := y;
    assert c[at..at + nc] == t[j := x][nc - j := y];
  }

  /** makect: nc places from at on. */
  method Makect(nc: nat, ip: array<nat>, c: array<real>, at: nat, wave: (nat, nat) -> C, ghost root: nat -> C,
                ghost d: nat)
    requires ip.Length >= 2 && Angles(root) && IsWave(wave, root)
    requires nc > 1 ==> nc == Pow(2, d) && at + nc <= c.Length
    modifies ip, c
    ensures ip[1] == nc && forall i :: 0 <= i < ip.Length && i != 1 ==> ip[i] == old(ip[i])
    ensures forall i :: 0 <= i < at && i < c.Length ==> c[i] == old(c[i])
    ensures nc > 1 ==> HalfCosines(c[at..at + nc], root(d + 2))
  {
    hide *;
    ip[1] := nc;
    if nc > 1 {
      ghost var phi := root(d + 2);
      TableIsEven(d);
      var nch := nc / 2;
      CosinesAre(wave, root, d, nch);
      c[at] := wave(nc, nch).re;
      c[at + nch] := 0.5 * c[at];
      FilledStarts(c[at..at + nc], phi);
      var j := 1;
      while j < nch
        invariant 1 <= j <= nch
        invariant FilledTo(c[at..at + nc], phi, j)
        invariant forall i :: 0 <= i < at ==> c[i] == old(c[i])
        modifies c
      {
        CosinesAre(wave, root, d, j);
        FillHalf(nc, c, at, wave, j, phi);
        j := j + 1;
      }
      QuarterTurn(root, d);
      FilledAll(c[at..at + nc], phi);
    }
  }

  lemma TableIsEven(d: nat)
    ensures Pow(2, d) > 1 ==> d >= 1 && Pow(2, d) % 2 == 0
  {
    SmallPowers();
    if d >= 1 {
      PowerOfTwo(d - 1);
    }
  }

  lemma CosinesAre(wave: (nat, nat) -> C, root: nat -> C, d: nat, j: nat)
    requires IsWave(wave, root)
    ensures wave(Pow(2, d), j) == Power(root(d + 2), j)
  {
    hide Power, Pow;
    assert WaveAt(wave, root, d, j);
  }

  lemma QuarterTurn(root: nat -> C, d: nat)
    requires Angles(root)
    ensures Power(root(d + 2), Pow(2, d)) == I && Norm(root(d + 2)) == 1.0
  {
    hide Power, Pow, Norm;
    RootPower(root, 2, d);
    RootFacts(root, d + 2);
    assert 2 + d == d + 2;
  }

  /** The half cosines keep the laws of the table. */
  lemma LawsOfCosines(c: seq<real>, phi: C)
    requires HalfCosines(c, phi) && Norm(phi) == 1.0 && Power(phi, |c|) == I && |c| % 2 == 0
    ensures HalfCircle(c) && Ddct.CosineTable(c)
  {
    hide Power, Norm;
    forall kk | 0 < kk < |c|
      ensures c[kk] * c[kk] + c[|c| - kk] * c[|c| - kk] == 0.25
    {
      NormPower(phi, kk);
      HalfNorm(Power(phi, kk), c[kk], c[|c| - kk]);
    }
    assert 2 * (|c| / 2) == |c|;
    MiddleIs(phi, |c| / 2);
    NormPower(phi, |c| / 2);
    EqualParts(Power(phi, |c| / 2));
  }

  lemma HalfNorm(z: C, x: real, y: real)
    requires Norm(z) == 1.0 && x == z.re / 2.0 && y == z.im / 2.0
    ensures x * x + y * y == 0.25
  {
  }

  lemma EqualParts(z: C)
    requires Norm(z) == 1.0 && z.re == z.im
    ensures z.re * z.re == 0.5
  {
  }

  /** How many entries of a table of 2^d one step for 2^K numbers takes. */
  lemma StepsArePower(d: nat, K: nat)
    requires 1 <= K <= d + 1
    ensures StepsOf(Pow(2, d), Pow(2, K)) == Pow(2, d + 1 - K) > 0
    ensures Pow(2, d + 1 - K) * (Pow(2, K) / 2) == Pow(2, d) && Pow(2, K) % 2 == 0 && Pow(2, K) > 0
  {
    hide *;
    PowerOfTwo(K - 1);
    PowerOfTwo(d);
    PowAdd(2, d + 1 - K, K);
    PowAdd(2, d + 1 - K, K - 1);
    StepsAre(Pow(2, d), Pow(2, K), Pow(2, d + 1 - K));
    HalfOf(Pow(2, K), Pow(2, K - 1));
  }

  lemma StepsAre(nc: nat, m: nat, q: nat)
    requires 2 * nc == q * m && m > 0
    ensures StepsOf(nc, m) == q
  {
    QuotientIs(2 * nc, m, q, 0);
  }

  lemma HalfOf(m: nat, h: nat)
    requires m == 2 * h
    ensures m / 2 == h && m % 2 == 0
  {
  }

  /** The half cosines serve the transform of 2^(K+1) reals. */
  lemma CosinesServe(c: seq<real>, root: nat -> C, d: nat, K: nat)
    requires Angles(root) && |c| == Pow(2, d) && HalfCosines(c, root(d + 2)) && 1 <= K <= d + 1
    ensures var ks := StepsOf(Pow(2, d), Pow(2, K));
      Reaches(c, ks, Pow(2, K)) && HalfTable(c, ks, Pow(2, K), root(K + 1))
  {
    hide *;
    StepsArePower(d, K);
    var ks, m := Pow(2, d + 1 - K), Pow(2, K);
    ReachesIs(c, ks, m);
    forall p: nat | 0 < p < m / 2
      ensures Share(c, ks, m, p) == Halved(Add(ONE, Mul(I, Power(root(K + 1), p))))
    {
      ShareAt(c, root, d, K, ks, m, p);
    }
    HalfTableIs(c, ks, m, root(K + 1));
  }

  lemma ReachesIs(c: seq<real>, ks: nat, m: nat)
    requires ks > 0 && m > 0 && m % 2 == 0 && ks * (m / 2) <= |c|
    ensures Reaches(c, ks, m)
  {
  }

  lemma HalfTableIs(c: seq<real>, ks: nat, m: nat, theta: C)
    requires Reaches(c, ks, m)
    requires forall p: nat :: 0 < p < m / 2 ==> Share(c, ks, m, p) == Halved(Add(ONE, Mul(I, Power(theta, p))))
    ensures HalfTable(c, ks, m, theta)
  {
    hide Share, Halved, Power, Mul, Reaches;
  }

  lemma ShareAt(c: seq<real>, root: nat -> C, d: nat, K: nat, ks: nat, m: nat, p: nat)
    requires Angles(root) && HalfCosines(c, root(d + 2)) && K <= d + 1 && ks == Pow(2, d + 1 - K)
    requires Reaches(c, ks, m) && 0 < p < m / 2
    ensures Share(c, ks, m, p) == Halved(Add(ONE, Mul(I, Power(root(K + 1), p))))
  {
    hide *;
    var phi := root(d + 2);
    RootPower(root, K + 1, d + 1 - K);
    assert K + 1 + (d + 1 - K) == d + 2;
    PowerPower(phi, ks, p);
    InTable(c, ks, m, p);
    Swapped(ks, p);
    CosineAt(c, phi, p * ks);
    ShareIs(c, ks, m, p, Power(phi, p * ks));
  }

  lemma Swapped(a: nat, b: nat)
    ensures a * b == b * a
  {
  }

  lemma CosineAt(c: seq<real>, phi: C, j: nat)
    requires HalfCosines(c, phi) && 0 < j < |c|
    ensures c[j] == Power(phi, j).re / 2.0 && c[|c| - j] == Power(phi, j).im / 2.0
  {
    hide Power;
  }

  lemma ShareIs(c: seq<real>, ks: nat, m: nat, p: nat, z: C)
    requires Reaches(c, ks, m) && 0 < p < m / 2 && 0 < p * ks < |c| && c[p * ks] == z.re / 2.0
    requires c[|c| - p * ks] == z.im / 2.0
    ensures Share(c, ks, m, p) == Halved(Add(ONE, Mul(I, z)))
  {
    TimesI(z.re, z.im);
    hide Mul, Reaches;
  }

  // ----- the tables between calls -----

  /** What is in ip and w between calls: a table for 2^K0 numbers, and behind it half cosines for 2^d. */
  ghost predicate TablesReady(ip: array<nat>, w: array<real>, root: nat -> C, K0: nat, d: nat)
    reads ip, w
  {
    Ready(ip, w, K0, root(K0)) &&
    (ip[1] > 1 ==>
      ip[1] == Pow(2, d) && ip[0] + ip[1] <= w.Length && HalfCosines(w[ip[0]..ip[0] + ip[1]], root(d + 2)))
  }

  /** The sizes of both tables after a call; the cosine transforms need a cosine for every real. */
  function NewFactors(n: nat, nw: nat): nat
  {
    if n > 4 * nw then n / 4 else nw
  }

  function NewCosines(all: bool, n: nat, nw: nat, nc: nat): nat
  {
    var had := if n > 4 * nw then 1 else nc;
    if all then (if n > had then n else had) else if n > 4 * had then n / 4 else had
  }

  lemma TablesAre(ip: array<nat>, w: array<real>, root: nat -> C, K0: nat, d: nat)
    requires TablesReady(ip, w, root, K0, d)
    ensures Ready(ip, w, K0, root(K0)) && ip.Length >= 2
    ensures ip[0] > 2 ==>
      K0 >= 3 && ip[0] == Pow(2, K0 - 1) && ip[0] <= w.Length && Table(Entries(w, ip[0]), K0, root(K0))
    ensures ip[1] > 1 ==> ip[1] == Pow(2, d) && ip[0] + ip[1] <= w.Length
    ensures ip[1] > 1 ==> HalfCosines(w[ip[0]..ip[0] + ip[1]], root(d + 2))
  {
    hide HalfCosines, Pow, Table, Entries;
  }

  lemma TablesFrom(ip: array<nat>, w: array<real>, root: nat -> C, K0: nat, d: nat)
    requires Ready(ip, w, K0, root(K0)) && ip.Length >= 2
    requires ip[1] > 1 ==> ip[1] == Pow(2, d) && ip[0] + ip[1] <= w.Length
    requires ip[1] > 1 ==> HalfCosines(w[ip[0]..ip[0] + ip[1]], root(d + 2))
    ensures TablesReady(ip, w, root, K0, d)
  {
    hide Ready, HalfCosines, Pow;
  }

  lemma ReadyFrom(ip: array<nat>, w: array<real>, K0: nat, omega: C)
    requires ip.Length >= 2
    requires ip[0] > 2 ==>
      K0 >= 3 && ip[0] == Pow(2, K0 - 1) && ip[0] <= w.Length && Table(Entries(w, ip[0]), K0, omega)
    ensures Ready(ip, w, K0, omega)
  {
    hide Pow, Table, Entries;
  }

  /** The entries of the first n reals depend on nothing else. */
  lemma EntriesStay(a: array<real>, n: nat, v: seq<real>, s: seq<C>)
    requires n <= a.Length && n <= |v| && |s| == n / 2 && forall i :: 0 <= i < n ==> a[i] == v[i]
    requires forall i: nat :: i < n / 2 ==> s[i] == C(v[2 * i], v[2 * i + 1])
    ensures Entries(a, n) == s
  {
  }

  lemma EntriesAre(a: array<real>, n: nat)
    requires n <= a.Length
    ensures forall i: nat :: i < n / 2 ==> Entries(a, n)[i] == C(a[..][2 * i], a[..][2 * i + 1])
  {
  }

  lemma NewFactorsIs(n: nat, nw: nat)
    ensures NewFactors(n, nw) == if n > 4 * nw then n / 4 else nw
  {
  }

  /** The part for the factors: a new table, or the old one with all that stands behind it. */
  method NeedFactors(n: nat, ip: array<nat>, w: array<real>, wave: (nat, nat) -> C,
                     ghost root: nat -> C, ghost K: nat, ghost K0: nat, ghost d: nat)
    returns (ghost K1: nat)
    requires n == 2 * Pow(2, K) && Angles(root) && IsWave(wave, root) && TablesReady(ip, w, root, K0, d)
    requires NewFactors(n, ip[0]) <= w.Length && (n > 4 ==> 2 + Pow(2, K / 2) <= ip.Length)
    modifies ip, w
    ensures TablesReady(ip, w, root, K1, d) && ip[0] == NewFactors(n, old(ip[0]))
    ensures ip[1] == if n > 4 * old(ip[0]) then 1 else old(ip[1])
    ensures K >= 3 ==> K <= K1 && ip[0] == Pow(2, K1 - 1) <= w.Length && Table(Entries(w, ip[0]), K1, root(K1))
  {
    hide *;
    TablesAre(ip, w, root, K0, d);
    NewFactorsIs(n, ip[0]);
    SizesAre(n, K);
    if K >= 3 {
      WaveServes(wave, root, K);
      PowerOfTwo(K - 1);
    }
    ghost var old0, old1, v := ip[0], ip[1], w[..];
    ghost var omega;
    K1, omega := NeedTable(n, ip, w, wave, K, K0, root(K0), root(K));
    assert n <= 4 * old0 && old1 > 1 ==> w[old0..old0 + old1] == v[old0..old0 + old1];
    TablesFrom(ip, w, root, K1, d);
  }

  /** The part for the cosines. */
  method NeedCosines(nc: nat, ip: array<nat>, w: array<real>, wave: (nat, nat) -> C,
                     ghost root: nat -> C, ghost K1: nat, ghost d: nat, ghost d0: nat)
    requires Angles(root) && IsWave(wave, root) && TablesReady(ip, w, root, K1, d0)
    requires nc > 1 ==> nc == Pow(2, d) && ip[0] + nc <= w.Length
    modifies ip, w
    ensures TablesReady(ip, w, root, K1, d) && ip[0] == old(ip[0]) && ip[1] == nc
    ensures ip[0] > 2 ==> ip[0] <= w.Length && Entries(w, ip[0]) == old(Entries(w, ip[0]))
  {
    hide *;
    TablesAre(ip, w, root, K1, d0);
    ghost var v := w[..];
    if ip[0] > 2 {
      EntriesAre(w, ip[0]);
    }
    Makect(nc, ip, w, ip[0], wave, root, d);
    if ip[0] > 2 {
      EntriesStay(w, ip[0], v, old(Entries(w, ip[0])));
    }
    ReadyFrom(ip, w, K1, root(K1));
    TablesFrom(ip, w, root, K1, d);
  }

  lemma KernelIs(root: nat -> C, K0: nat, K: nat)
    requires Angles(root) && (K >= 3 ==> K <= K0)
    ensures KernelFor(root(K0), K0, K) == root(K)
  {
    RootFacts(root, K);
    hide Angles, Power, Pow, Norm, Mul;
    if K >= 3 {
      RootPower(root, K, K0 - K);
      assert K + (K0 - K) == K0;
    }
  }

  lemma KernelFrom(theta: C, m: nat)
    requires Norm(theta) == 1.0 && Power(theta, m) == C(-1.0, 0.0) && (m % 2 == 0 ==> Power(theta, m / 2) == I)
    ensures RealKernel(theta, m)
  {
  }

  /** theta = root(K+1) is a kernel for 2^(K+1) reals. */
  lemma ThetaIs(root: nat -> C, K: nat)
    requires Angles(root)
    ensures RealKernel(root(K + 1), Pow(2, K)) && Mul(root(K + 1), root(K + 1)) == root(K)
  {
    hide *;
    RootFacts(root, K + 1);
    RootFacts(root, K);
    RootPower(root, 1, K);
    assert 1 + K == K + 1;
    SmallPowers();
    if K >= 1 {
      RootPower(root, 2, K - 1);
      assert 2 + (K - 1) == K + 1;
      PowerOfTwo(K - 1);
    }
    KernelFrom(root(K + 1), Pow(2, K));
  }

  lemma LargeCosines(d: nat, K: nat)
    requires K >= 1 && Pow(2, d) >= Pow(2, K - 1)
    ensures K <= d + 1
  {
    if d + 1 < K {
      PowStrict(2, d, K - 1);
    }
  }

  /** With tables large enough everything is there that the real transforms ask for. */
  lemma TablesServe(n: nat, ip: array<nat>, w: array<real>, root: nat -> C, K: nat, K1: nat, d: nat)
    requires ip.Length >= 2 && ip[0] + ip[1] <= w.Length && n == 2 * Pow(2, K) && Angles(root)
    requires K >= 3 ==> K <= K1 && ip[0] == Pow(2, K1 - 1) && Table(Entries(w, ip[0]), K1, root(K1))
    requires TablesReady(ip, w, root, K1, d) && (K >= 2 ==> ip[1] >= Pow(2, K - 1))
    ensures RealTables(n, w, ip[0], ip[1], K, K1, root(K1), root(K + 1))
    ensures ip[1] > 1 ==> Ddct.CosineTable(w[ip[0]..ip[0] + ip[1]])
  {
    hide *;
    TablesAre(ip, w, root, K1, d);
    KernelIs(root, K1, K);
    ThetaIs(root, K);
    SizesAre(n, K);
    var nc, c := ip[1], w[ip[0]..ip[0] + ip[1]];
    if nc > 1 {
      TableIsEven(d);
      QuarterTurn(root, d);
      LawsOfCosines(c, root(d + 2));
    }
    if K >= 2 {
      PowerOfTwo(K - 2);
      LargeCosines(d, K);
      CosinesServe(c, root, d, K);
      PowerOfTwo(K - 1);
    }
    RealTablesAre(n, w, ip[0], nc, K, K1, root(K1), root(K + 1));
  }

  lemma RealTablesAre(n: nat, w: array<real>, nw: nat, nc: nat, K: nat, K0: nat, omega: C, theta: C)
    requires n == 2 * Pow(2, K) && nw + nc <= w.Length && (n > 8 <==> K >= 3) && (n > 4 <==> K >= 2) && Pow(2, K) > 0
    requires K >= 3 ==> K <= K0 && nw == Pow(2, K0 - 1) && Table(Entries(w, nw), K0, omega)
    requires Mul(theta, theta) == KernelFor(omega, K0, K) && RealKernel(theta, Pow(2, K))
    requires K >= 2 ==>
      Pow(2, K) <= 2 * nc && HalfCircle(w[nw..nw + nc]) && Reaches(w[nw..nw + nc], StepsOf(nc, Pow(2, K)), Pow(2, K)) &&
      HalfTable(w[nw..nw + nc], StepsOf(nc, Pow(2, K)), Pow(2, K), theta)
    ensures RealTables(n, w, nw, nc, K, K0, omega, theta)
  {
    hide Pow, Table, Entries, Mul, KernelFor, RealKernel, HalfCircle, Reaches, HalfTable, StepsOf;
  }

  /** The table part of rdft, and of ddct and ddst. */
  method NeedTables(all: bool, n: nat, ip: array<nat>, w: array<real>, wave: (nat, nat) -> C,
                    ghost root: nat -> C, ghost K: nat, ghost K0: nat, ghost d0: nat)
    returns (ghost K1: nat, ghost d1: nat)
    requires n == 2 * Pow(2, K) && Angles(root) && IsWave(wave, root) && TablesReady(ip, w, root, K0, d0)
    requires NewFactors(n, ip[0]) + NewCosines(all, n, ip[0], ip[1]) <= w.Length
    requires n > 4 ==> 2 + Pow(2, K / 2) <= ip.Length
    modifies ip, w
    ensures TablesReady(ip, w, root, K1, d1)
    ensures RealTables(n, w, ip[0], ip[1], K, K1, root(K1), root(K + 1))
    ensures all ==> n <= ip[1] && ip[0] + ip[1] <= w.Length && Ddct.CosineTable(w[ip[0]..ip[0] + ip[1]])
    ensures ip[0] == NewFactors(n, old(ip[0])) && ip[1] == NewCosines(all, n, old(ip[0]), old(ip[1]))
  {
    hide *;
    TablesAre(ip, w, root, K0, d0);
    ghost var nw0, nc0 := ip[0], ip[1];
    SizesAre(n, K);
    NewCosinesIs(all, n, nw0, nc0);
    K1 := NeedFactors(n, ip, w, wave, root, K, K0, d0);
    d1 := d0;
    var nc := ip[1];
    if K >= 3 {
      PowerOfTwo(K1 - 3);
    }
    if all && n > nc {
      d1 := K + 1;
      NeedCosines(n, ip, w, wave, root, K1, d1, d0);
    } else if !all && n > 4 * nc {
      if n >= 4 {
        d1 := K - 1;
      }
      NeedCosines(n / 4, ip, w, wave, root, K1, d1, d0);
    }
    TablesServe(n, ip, w, root, K, K1, d1);
  }

  lemma NewCosinesIs(all: bool, n: nat, nw: nat, nc: nat)
    ensures var had := if n > 4 * nw then 1 else nc;
      NewCosines(all, n, nw, nc) == if all then (if n > had then n else had) else if n > 4 * had then n / 4 else had
  {
  }
}
