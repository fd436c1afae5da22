/** makewt and cdft: the tables, and the complex transform with its inverse. */
module Cdft {
  import opened Words
  import opened Complex
  import opened BitReversal
  import opened Dft
  import opened FourierLaws
  import opened Passes
  import opened Butterflies
  import opened Cft
  import opened LastPass

  /** Small transforms take no factors from the table; larger ones need an entry for every eighth real of a. */
  ghost predicate TableServes(n: nat, w: array<real>, nw: nat)
    reads w
  {
    nw <= w.Length && (n > 8 ==> n <= 4 * nw && DoubleAngle(Entries(w, nw)))
  }

  lemma PowerOfTwo(k: nat)
    ensures Pow(2, k) >= 1 && Pow(2, k + 1) == 2 * Pow(2, k) && Pow(2, k + 2) == 4 * Pow(2, k)
    ensures Pow(2, k + 3) == 8 * Pow(2, k)
  {
    PowAdd(2, k, 2);
    assert Pow(2, k + 3) == 2 * Pow(2, k + 2);
  }

  /** Blocks between the exponents k and K. */
  lemma BlockCount(k: nat, K: nat, n: nat, l: nat)
    requires l == 2 * Pow(2, k) && n == 2 * Pow(2, K) && k + 3 <= K
    ensures var h, nb := Pow(2, k), Pow(2, K - k - 2);
      n == 2 * (4 * h * nb) && nb >= 2 && nb % 2 == 0 && h > 0
  {
    hide Pow;
    PowerOfTwo(K - k - 3);
    PowerOfTwo(K - 2);
    PowerOfTwo(k);
    PowAdd(2, k, K - k - 2);
    assert k + (K - k - 2) == K - 2;
    MulAssoc(4, Pow(2, k), Pow(2, K - k - 2));
  }

  lemma GuardIs(k: nat, K: nat)
    requires k < K
    ensures 4 * (2 * Pow(2, k)) < 2 * Pow(2, K) <==> k + 3 <= K
    ensures 4 * (2 * Pow(2, k)) == 2 * Pow(2, K) <==> k + 2 == K
  {
    PowerOfTwo(k);
    if k + 3 <= K {
      PowMono(2, k + 3, K);
    }
  }

  /** The passes before the last one: all but one or two stages of the network. */
  method FirstPasses(n: nat, a: array<real>, w: array<real>, nw: nat, ghost K: nat) returns (l: nat, ghost k: nat)
    requires n <= a.Length && a != w && K >= 1 && n == 2 * Pow(2, K) && TableServes(n, w, nw)
    modifies a
    ensures Entries(a, n) == Blocks(Entries(w, nw), k, old(Entries(a, n)), 0)
    ensures l == 2 * Pow(2, k) && (k + 1 == K || k + 2 == K)
    ensures forall i :: n <= i < a.Length ==> a[i] == old(a[i])
  {
    hide *;
    ServesLarge(n, w, nw);
    ghost var u, s0 := Entries(w, nw), Entries(a, n);
    l, k := 2, 0;
    PowerOfTwo(0);
    PowerOfTwo(K - 1);
    SmallPowers();
    SingleBlocks(u, s0, 0);
    GuardIs(0, K);
    if n > 8 {
      BlockCount(0, K, n, l);
      Cft1st(n, a, w, nw, Pow(2, K - 2));
      PassAdvances(u, 0, s0, 0, Pow(2, K - 2));
      l, k := 8, 2;
      while l * 4 < n
        invariant k < K && l == 2 * Pow(2, k) && Entries(w, nw) == u
        invariant Entries(a, n) == Blocks(u, k, s0, 0)
        invariant forall i :: n <= i < a.Length ==> a[i] == old(a[i])
        decreases K - k
      {
        GuardIs(k, K);
        BlockCount(k, K, n, l);
        PowMono(2, K - k - 2, K - 2);
        PowerOfTwo(K - 2);
        Cftmdl(n, l, a, w, nw, Pow(2, k), Pow(2, K - k - 2));
        PassAdvances(u, k, s0, 0, Pow(2, K - k - 2));
        PowerOfTwo(k);
        l := 4 * l;
        k := k + 2;
      }
      GuardIs(k, K);
    }
  }

  lemma SmallPowers()
    ensures Pow(2, 0) == 1 && Pow(2, 1) == 2 && Pow(2, 2) == 4
  {
  }

  lemma ServesLarge(n: nat, w: array<real>, nw: nat)
    requires TableServes(n, w, nw)
    ensures nw <= w.Length && (n > 8 ==> n <= 4 * nw && DoubleAngle(Entries(w, nw)))
  {
  }

  /** The last stages on the whole sequence. */
  lemma LastFour(u: seq<C>, k: nat, s: seq<C>)
    requires |s| == Pow(2, k + 2)
    ensures |s| == 4 * Pow(2, k) && AfterRows(Blocks(u, k, s, 0), 0, Pow(2, k), ONE, ONE) == Network(u, k + 2, s, 0)
  {
    PowerOfTwo(k);
    var h, t := Pow(2, k), Blocks(u, k, s, 0);
    assert Factor(u, 0) == ONE;
    PassAdvances(u, k, s, 0, 1);
    WholeBlock(u, k + 2, s);
    hide *;
    PassStarts(u, h, t);
    PassStep(u, h, t, t, 0, 0);
    PassEnds(u, h, t, AfterRows(t, 0, h, ONE, ONE), 1);
  }

  lemma LastTwo(u: seq<C>, k: nat, s: seq<C>)
    requires |s| == Pow(2, k + 1)
    ensures var t, h := Blocks(u, k, s, 0), Pow(2, k);
      |s| == 2 * h && Pairwise(t[..h], t[h..], ONE) == Network(u, k + 1, s, 0)
  {
    PowerOfTwo(k);
    var h := Pow(2, k);
    var l, r := s[..h], s[h..];
    assert s == l + r && Factor(u, 0) == ONE && r + [] == r;
    assert Blocks(u, k, [], 2) == [];
    hide *;
    UnfoldBlocks(u, k, l, r, 0);
    UnfoldBlocks(u, k, r, [], 1);
    UnfoldNetwork(u, k + 1, l, r, 0, k, 0, 1);
    var t := Blocks(u, k, s, 0);
    assert t == Network(u, k, l, 0) + Network(u, k, r, 1);
  }

  /** The forward transform of numbers in reversed order: the network. */
  method Cftfsub(n: nat, a: array<real>, w: array<real>, nw: nat, ghost K: nat)
    requires n <= a.Length && a != w && K >= 1 && n == 2 * Pow(2, K) && TableServes(n, w, nw)
    modifies a
    ensures Entries(a, n) == Network(Entries(w, nw), K, old(Entries(a, n)), 0)
    ensures forall i :: n <= i < a.Length ==> a[i] == old(a[i])
  {
    hide *;
    ServesLarge(n, w, nw);
    ghost var u, s0 := Entries(w, nw), Entries(a, n);
    var l;
    ghost var k;
    l, k := FirstPasses(n, a, w, nw, K);
    GuardIs(k, K);
    PowerOfTwo(k);
    if l * 4 == n {
      LastFour(u, k, s0);
      PlainIs();
      Rows(Plain, n, a, 0, l, 0, Pow(2, k));
    } else {
      LastTwo(u, k, s0);
      LastPairs(false, n, a, l, Pow(2, k));
      NotTurned(Network(u, K, s0, 0));
    }
  }

  lemma PlainIs()
    ensures Fits(Plain) && First(Plain) == ONE && Second(Plain) == ONE
  {
  }

  lemma NotTurned(s: seq<C>)
    ensures TurnAll(false, s) == s && TurnAll(true, s) == Conjugates(s)
  {
  }

  /** The same, with the results conjugated. */
  method Cftbsub(n: nat, a: array<real>, w: array<real>, nw: nat, ghost K: nat)
    requires n <= a.Length && a != w && K >= 1 && n == 2 * Pow(2, K) && TableServes(n, w, nw)
    modifies a
    ensures Entries(a, n) == Conjugates(Network(Entries(w, nw), K, old(Entries(a, n)), 0))
    ensures forall i :: n <= i < a.Length ==> a[i] == old(a[i])
  {
    hide *;
    ServesLarge(n, w, nw);
    ghost var u, s0 := Entries(w, nw), Entries(a, n);
    var l;
    ghost var k;
    l, k := FirstPasses(n, a, w, nw, K);
    GuardIs(k, K);
    PowerOfTwo(k);
    if l * 4 == n {
      LastFour(u, k, s0);
      BackwardFour(n, a, l, Pow(2, k));
    } else {
      LastTwo(u, k, s0);
      LastPairs(true, n, a, l, Pow(2, k));
      NotTurned(Network(u, K, s0, 0));
    }
  }

  // ----- the table -----

  /** Cosine and sine of j times delta for a table of nw reals: wave(nw, j). They are powers of a number
      omega of modulus one, which turns a quarter in nw/2 steps. */
  ghost predicate WaveOf(wave: (nat, nat) -> C, nw: nat, omega: C)
  {
    nw > 0 && Norm(omega) == 1.0 && Power(omega, nw / 2) == I &&
    forall q: nat :: q <= nw / 4 ==> wave(nw, 2 * q) == Power(omega, q)
  }

  /** The first n powers of omega. */
  function Powers(omega: C, n: nat): (r: seq<C>)
    ensures |r| == n
  {
    seq(n, q requires 0 <= q < n => Power(omega, q))
  }

  /** A quarter turn less: real and imaginary parts change places. */
  lemma Mirrored(omega: C, q: nat, m: nat, z: C)
    requires Norm(omega) == 1.0 && q <= m && Power(omega, m) == I && z == Power(omega, q)
    ensures C(z.im, z.re) == Power(omega, m - q)
  {
    PowerAdd(omega, m - q, q);
    NormPower(omega, q);
    var y := Power(omega, m - q);
    MirrorAlgebra(y, z);
  }

  lemma MirrorAlgebra(y: C, z: C)
    requires Mul(y, z) == I && Norm(z) == 1.0
    ensures y == C(z.im, z.re)
  {
    assert Mul(I, Conj(z)) == C(z.im, z.re) by {
      TimesI(z.re, -z.im);
    }
    hide Mul, Norm;
    CMulAssoc(y, z, Conj(z));
    MulConj(z);
    MulOne(y);
  }

  /** Half way to the quarter turn real and imaginary part are the same. */
  lemma HalfWay(omega: C, m: nat)
    requires m % 2 == 0 && Power(omega, m) == I
    ensures Power(omega, m / 2).re == Power(omega, m / 2).im
  {
    PowerAdd(omega, m / 2, m / 2);
    EighthTurn(Power(omega, m / 2));
  }

  /** The entries below c, their mirror images and the middle one are in place. */
  ghost predicate Filled(s: seq<C>, c: nat, omega: C)
  {
    forall q: nat :: q < |s| && (q < c || |s| - c < q || 2 * q == |s|) ==> s[q] == Power(omega, q)
  }

  /** One entry and its mirror image. */
  method FillPair(nw: nat, w: array<real>, wave: (nat, nat) -> C, j: nat, ghost omega: C, ghost m: nat, ghost c: nat)
    requires nw <= w.Length && nw == 2 * m && j == 2 * c && WaveOf(wave, nw, omega) && 0 < c && 2 * c < m && m % 2 == 0
    requires Filled(Entries(w, nw), c, omega)
    modifies w
    ensures Filled(Entries(w, nw), c + 1, omega)
    ensures forall i :: nw <= i < w.Length ==> w[i] == old(w[i])
  {
    hide Power, Norm, Entries;
    assert wave(nw, 2 * c) == Power(omega, c);
    Mirrored(omega, c, m, Power(omega, c));
    var x, y := wave(nw, j).re, wave(nw, j).im;
    SetEntry(nw, w, j, C(x, y), c);
    SetEntry(nw, w, nw - j, C(y, x), m - c);
  }

  /** The table of the first nw/2 powers of omega, in their natural order, from a quarter of them. */
  method NaturalTable(nw: nat, w: array<real>, wave: (nat, nat) -> C, ghost omega: C)
    requires nw <= w.Length && nw >= 4 && nw % 4 == 0 && WaveOf(wave, nw, omega)
    modifies w
    ensures Entries(w, nw) == Powers(omega, nw / 2)
    ensures forall i :: nw <= i < w.Length ==> w[i] == old(w[i])
  {
    hide Power, Norm, Entries;
    var nwh := nw / 2;
    ghost var m := nw / 2;
    SetEntry(nw, w, 0, ONE, 0);
    PowerFirst(omega);
    HalfWay(omega, m);
    assert wave(nw, 2 * (nw / 4)) == Power(omega, m / 2);
    var x := wave(nw, nwh).re;
    SetEntry(nw, w, nwh, C(x, x), m / 2);
    var j := 2;
    if nwh > 2 {
      while j < nwh
        invariant j % 2 == 0 && 2 <= j <= nwh
        invariant Filled(Entries(w, nw), j / 2, omega)
        invariant forall i :: nw <= i < w.Length ==> w[i] == old(w[i])
      {
        FillPair(nw, w, wave, j, omega, m, j / 2);
        j := j + 2;
      }
    }
    AllFilled(Entries(w, nw), omega);
  }

  lemma AllFilled(s: seq<C>, omega: C)
    requires |s| % 2 == 0 && Filled(s, |s| / 2, omega)
    ensures s == Powers(omega, |s|)
  {
    hide Power;
  }

  /** Reversing the powers of omega gives the table that the passes read. */
  lemma ReversedTable(omega: C, K: nat)
    requires K >= 2 && Norm(omega) == 1.0 && Power(omega, Pow(2, K - 2)) == I
    ensures Table(Reversed(K - 2, Powers(omega, Pow(2, K - 2))), K, omega)
  {
    hide Power, Norm, Rev;
  }

  lemma TwoEntries(omega: C)
    ensures Reversed(1, Powers(omega, 2)) == Powers(omega, 2)
  {
    assert Rev(1, 0) == 0 && Rev(1, 1) == 1;
    hide Power;
  }

  /** Makes the table for transforms of up to 2^K numbers. */
  method Makewt(nw: nat, ip: array<nat>, w: array<real>, wave: (nat, nat) -> C, ghost K: nat, ghost omega: C)
    requires ip.Length >= 2
    requires nw > 2 ==> K >= 1 && nw == Pow(2, K - 1) && WaveOf(wave, nw, omega)
    requires nw > 2 ==> nw <= w.Length && 2 + Pow(2, (K - 1) / 2) <= ip.Length
    modifies ip, w
    ensures ip[0] == nw && ip[1] == 1 && (nw > 2 ==> Table(Entries(w, nw), K, omega))
  {
    hide Power, Norm, Table, Powers, Reversed, Entries;
    ip[0] := nw;
    ip[1] := 1;
    if nw > 2 {
      TableLength(K);
      NaturalTable(nw, w, wave, omega);
      ReversedTable(omega, K);
      var nwh := nw / 2;
      if nwh > 2 {
        PowMono(2, (K - 2) / 2, (K - 1) / 2);
        Bitrv2(nw, ip, 2, w, K - 1);
      } else {
        TwoEntries(omega);
      }
    }
  }

  lemma TableLength(K: nat)
    requires K >= 1 && Pow(2, K - 1) > 2
    ensures K >= 3 && Pow(2, K - 1) % 4 == 0 && Pow(2, K - 1) >= 4 && Pow(2, K - 1) / 2 == Pow(2, K - 2)
    ensures Pow(2, K - 1) / 2 <= 2 ==> K == 3
  {
    SmallPowers();
    PowerOfTwo(K - 3);
    if K > 3 {
      PowerOfTwo(K - 4);
    }
  }

  /** A table for 2^K0 numbers serves 2^K numbers, with a power of its omega for kernel. */
  lemma SubTable(u: seq<C>, K0: nat, omega: C, K: nat)
    requires 2 <= K <= K0 && Table(u, K0, omega)
    ensures Table(u, K, Kernel(omega, K0, K))
  {
    hide *;
    PowMono(2, K - 2, K0 - 2);
    TableFacts(u, K0, omega);
    KernelTurns(omega, K0, K);
    forall p: nat | 0 < p < Pow(2, K - 2)
      ensures p < |u| && u[p] == Power(Kernel(omega, K0, K), Rev(K - 2, p))
    {
      SubEntry(omega, K0, K, p);
    }
    TableFrom(u, K, Kernel(omega, K0, K));
  }

  lemma TableFacts(u: seq<C>, K: nat, omega: C)
    requires K >= 2 && Table(u, K, omega)
    ensures Power(omega, Pow(2, K - 2)) == I && Norm(omega) == 1.0 && Pow(2, K - 2) <= |u|
    ensures forall p: nat :: 0 < p < Pow(2, K - 2) ==> u[p] == Power(omega, Rev(K - 2, p))
  {
    hide Power, Norm, Pow, Rev;
  }

  lemma TableFrom(u: seq<C>, K: nat, omega: C)
    requires K >= 2 && Power(omega, Pow(2, K - 2)) == I && Norm(omega) == 1.0 && Pow(2, K - 2) <= |u|
    requires forall p: nat :: 0 < p < Pow(2, K - 2) ==> u[p] == Power(omega, Rev(K - 2, p))
    ensures Table(u, K, omega)
  {
    hide Power, Norm, Pow, Rev;
  }

  lemma KernelTurns(omega: C, K0: nat, K: nat)
    requires 2 <= K <= K0 && Norm(omega) == 1.0
    ensures Norm(Kernel(omega, K0, K)) == 1.0
    ensures Power(Kernel(omega, K0, K), Pow(2, K - 2)) == Power(omega, Pow(2, K0 - 2))
  {
    hide Power, Norm, Pow;
    var d := K0 - K;
    NormPower(omega, Pow(2, d));
    PowerPower(omega, Pow(2, d), Pow(2, K - 2));
    PowAdd(2, d, K - 2);
    assert d + (K - 2) == K0 - 2;
  }

  lemma SubEntry(omega: C, K0: nat, K: nat, p: nat)
    requires 2 <= K <= K0 && p < Pow(2, K - 2)
    ensures Power(omega, Rev(K0 - 2, p)) == Power(Kernel(omega, K0, K), Rev(K - 2, p))
  {
    hide Power, Rev, Pow;
    var d := K0 - K;
    RevParts(K - 2, d, p, 0);
    RevOfOne(d);
    assert Pow(2, K - 2) * 0 == 0 && K - 2 + d == K0 - 2;
    PowerPower(omega, Pow(2, d), Rev(K - 2, p));
  }

  /** The kernel of a transform of 2^K numbers when the table of omega was made for 2^K0. */
  function KernelFor(omega: C, K0: nat, K: nat): C
  {
    if K == 0 then ONE else if K == 1 then C(-1.0, 0.0) else if K == 2 || K > K0 then I else Kernel(omega, K0, K)
  }

  /** theta is a root of unity of order 2^K. */
  ghost predicate Primitive(theta: C, K: nat)
  {
    Norm(theta) == 1.0 &&
    (K == 0 ==> theta == ONE) &&
    (K > 0 ==> Power(theta, Pow(2, K - 1)) == C(-1.0, 0.0)) &&
    (K > 1 ==> Power(theta, Pow(2, K - 2)) == I)
  }

  /** What is in ip and w between calls: nothing, or a table for 2^K0 numbers. */
  ghost predicate Ready(ip: array<nat>, w: array<real>, K0: nat, omega: C)
    reads ip, w
  {
    ip.Length >= 2 &&
    (ip[0] > 2 ==> K0 >= 3 && ip[0] == Pow(2, K0 - 1) && ip[0] <= w.Length && Table(Entries(w, ip[0]), K0, omega))
  }

  /** Small networks do not read the table. */
  lemma SmallNetwork(u: seq<C>, v: seq<C>, K: nat, s: seq<C>)
    requires K <= 2 && |s| == Pow(2, K)
    ensures Network(u, K, s, 0) == Network(v, K, s, 0)
  {
    hide Pairwise;
    assert Factor(u, 0) == Factor(v, 0) && Factor(u, 1) == Factor(v, 1);
    hide Factor;
  }

  lemma LargeTable(u: seq<C>, K0: nat, omega: C, K: nat)
    requires 3 <= K <= K0 && |u| == Pow(2, K0 - 2) && Table(u, K0, omega)
    ensures Table(u, K, KernelFor(omega, K0, K)) && DoubleAngle(u) && Primitive(KernelFor(omega, K0, K), K)
  {
    assert Norm(omega) == 1.0 && Power(omega, Pow(2, K0 - 2)) == I;
    SubTable(u, K0, omega, K);
    TableDoublesAngles(u, K0, omega);
    assert KernelFor(omega, K0, K) == Kernel(omega, K0, K);
    hide Power, Norm, Pow, DoubleAngle, KernelFor, Table;
    KernelTurns(omega, K0, K);
    HalfTurn(u, K, KernelFor(omega, K0, K));
  }

  lemma SmallTable(K0: nat, omega: C, K: nat)
    requires K <= 2
    ensures Table([ONE], K, KernelFor(omega, K0, K)) && DoubleAngle([ONE]) && Primitive(KernelFor(omega, K0, K), K)
  {
    var theta := KernelFor(omega, K0, K);
    SmallPowers();
    hide Power, Mul;
    PowerFirst(theta);
    if K == 2 {
      assert Pow(2, K - 2) == 1 && Pow(2, K - 1) == 2;
      PowerAdd(I, 1, 1);
      TimesI(0.0, 1.0);
      PowerFirst(I);
    } else if K == 1 {
      assert Pow(2, K - 1) == 1;
    }
  }

  /** A table that gives what the network needs for 2^K numbers. */
  lemma ATable(u: seq<C>, K0: nat, omega: C, K: nat) returns (v: seq<C>)
    requires K >= 3 ==> K <= K0 && |u| == Pow(2, K0 - 2) && Table(u, K0, omega)
    ensures Table(v, K, KernelFor(omega, K0, K)) && DoubleAngle(v) && Primitive(KernelFor(omega, K0, K), K)
    ensures forall s: seq<C> :: |s| == Pow(2, K) ==> Network(u, K, s, 0) == Network(v, K, s, 0)
  {
    hide *;
    if K >= 3 {
      v := u;
      LargeTable(u, K0, omega, K);
    } else {
      v := [ONE];
      SmallTable(K0, omega, K);
      forall s: seq<C> | |s| == Pow(2, K) ensures Network(u, K, s, 0) == Network(v, K, s, 0) {
        SmallNetwork(u, v, K, s);
      }
    }
  }

  lemma ConjugatesReversed(K: nat, s: seq<C>)
    requires |s| == Pow(2, K)
    ensures Conjugates(Reversed(K, s)) == Reversed(K, Conjugates(s))
  {
    hide Rev;
  }

  lemma {:induction false} ConjugatesEnergy(s: seq<C>)
    ensures Energy(Conjugates(s)) == Energy(s)
    decreases |s|
  {
    if |s| > 0 {
      ConjugatesEnergy(s[..|s| - 1]);
      assert Conjugates(s)[..|s| - 1] == Conjugates(s[..|s| - 1]);
    }
  }

  /** What the forward transform leaves behind. */
  lemma ForwardIs(v: seq<C>, K: nat, theta: C, s: seq<C>)
    requires Table(v, K, theta) && DoubleAngle(v) && |s| == Pow(2, K)
    ensures var r := Network(v, K, Reversed(K, s), 0);
      r == All(s, theta) && Energy(r) == Times(Pow(2, K), Energy(s))
  {
    hide Network, Transform, Times, Energy, Table, DoubleAngle, Reversed;
    forall p: nat | p < |s| ensures Network(v, K, Reversed(K, s), 0)[p] == All(s, theta)[p] {
      NetworkIsTransform(v, theta, K, s, p);
    }
    AnglesAreUnits(v);
    Parseval(v, K, s);
  }

  /** What the backward transform leaves behind. */
  lemma BackwardIs(v: seq<C>, K: nat, theta: C, s: seq<C>)
    requires Table(v, K, theta) && DoubleAngle(v) && |s| == Pow(2, K)
    ensures var r := Conjugates(Network(v, K, Conjugates(Reversed(K, s)), 0));
      r == All(s, Conj(theta)) && Energy(r) == Times(Pow(2, K), Energy(s))
  {
    hide Network, Times, Energy, Table, DoubleAngle, Reversed, Sum, Conj;
    ConjugatesReversed(K, s);
    ForwardIs(v, K, theta, Conjugates(s));
    var f := All(Conjugates(s), theta);
    ConjugatesEnergy(f);
    ConjugatesEnergy(s);
    forall p: nat | p < |s| ensures Conjugates(f)[p] == All(s, Conj(theta))[p] {
      ConjugateSum(s, theta, p, |s|);
    }
  }

  /** Up to two numbers are their own reversal. */
  lemma TinyReversal(v: seq<C>, K: nat, s: seq<C>)
    requires K <= 1 && |s| == Pow(2, K)
    ensures Reversed(K, s) == s && (K == 0 ==> Network(v, K, s, 0) == s)
  {
    SmallPowers();
    assert Rev(0, 0) == 0 && Rev(1, 0) == 0 && Rev(1, 1) == 1;
  }

  lemma SizesAre(n: nat, K: nat)
    requires n == 2 * Pow(2, K)
    ensures n == Pow(2, K + 1) && (n > 4 <==> K >= 2) && (n > 8 <==> K >= 3) && (n == 4 <==> K == 1)
    ensures n == 2 <==> K == 0
    ensures K >= 1 ==> n / 4 == Pow(2, K - 1) && n % 4 == 0
    ensures n / 4 > 2 <==> K >= 3
  {
    SmallPowers();
    if K >= 1 {
      PowerOfTwo(K - 1);
    }
    if K >= 3 {
      PowerOfTwo(K - 3);
    }
  }

  lemma LargeEnough(n: nat, K: nat, K1: nat, nw: nat)
    requires n == 2 * Pow(2, K) && K >= 3 && K1 >= 1 && nw == Pow(2, K1 - 1) && n <= 4 * nw
    ensures K1 >= K && nw / 2 == Pow(2, K1 - 2)
  {
    PowerOfTwo(K - 1);
    if K1 < K {
      PowerOfTwo(K1 - 1);
      PowMono(2, K1, K - 1);
    }
    PowerOfTwo(K1 - 2);
  }

  /** The table part of cdft: a new table when n needs a larger one. */
  method NeedTable(n: nat, ip: array<nat>, w: array<real>, wave: (nat, nat) -> C,
                   ghost K: nat, ghost K0: nat, ghost omega0: C, ghost omegaN: C)
    returns (ghost K1: nat, ghost omega1: C)
    requires n == 2 * Pow(2, K) && Ready(ip, w, K0, omega0)
    requires n > 8 && n > 4 * ip[0] ==> WaveOf(wave, n / 4, omegaN) && n / 4 <= w.Length
    requires n > 4 ==> 2 + Pow(2, K / 2) <= ip.Length
    modifies ip, w
    ensures Ready(ip, w, K1, omega1) && (K >= 1 ==> n <= 4 * ip[0])
    ensures n <= 4 * old(ip[0]) ==> ip[0] == old(ip[0]) && ip[1] == old(ip[1]) && K1 == K0 && omega1 == omega0
    ensures n <= 4 * old(ip[0]) ==> w[..] == old(w[..])
    ensures n > 4 * old(ip[0]) ==> ip[0] == n / 4 && ip[1] == 1 && K1 == K && omega1 == omegaN
    ensures K >= 3 ==> K <= K1 && ip[0] == Pow(2, K1 - 1) <= w.Length && Table(Entries(w, ip[0]), K1, omega1)
    ensures K >= 3 ==> |Entries(w, ip[0])| == Pow(2, K1 - 2)
  {
    hide Pow, Power, Table, Entries, WaveOf;
    K1, omega1 := K0, omega0;
    SizesAre(n, K);
    if n > 4 * ip[0] {
      if n > 8 {
        PowMono(2, (K - 1) / 2, K / 2);
      }
      Makewt(n / 4, ip, w, wave, K, omegaN);
      K1, omega1 := K, omegaN;
    }
    if n > 8 {
      LargeEnough(n, K, K1, ip[0]);
    }
  }

  /** Reversal and network; up to two numbers are their own reversal. */
  method CdftForward(n: nat, a: array<real>, ip: array<nat>, w: array<real>, nw: nat, ghost K: nat)
    requires n == 2 * Pow(2, K) && n <= a.Length && a != w && TableServes(n, w, nw)
    requires n > 4 ==> 2 + Pow(2, K / 2) <= ip.Length
    modifies a, ip
    ensures Entries(a, n) == Network(Entries(w, nw), K, Reversed(K, old(Entries(a, n))), 0)
    ensures forall j :: 0 <= j < 2 && j < ip.Length ==> ip[j] == old(ip[j])
    ensures forall i :: n <= i < a.Length ==> a[i] == old(a[i])
  {
    hide Pow, Network, Reversed, Entries, TableServes, Rev;
    SizesAre(n, K);
    ServesLarge(n, w, nw);
    if n > 4 {
      Bitrv2(n, ip, 2, a, K + 1);
      Cftfsub(n, a, w, nw, K);
    } else {
      TinyReversal(Entries(w, nw), K, Entries(a, n));
      if n == 4 {
        Cftfsub(n, a, w, nw, K);
      }
    }
  }

  /** The same with all numbers conjugated before and after; up to two numbers take the forward way. */
  method CdftBackward(n: nat, a: array<real>, ip: array<nat>, w: array<real>, nw: nat, ghost K: nat)
    requires n == 2 * Pow(2, K) && n <= a.Length && a != w && TableServes(n, w, nw)
    requires n > 4 ==> 2 + Pow(2, K / 2) <= ip.Length
    modifies a, ip
    ensures K >= 2 ==>
      Entries(a, n) == Conjugates(Network(Entries(w, nw), K, Conjugates(Reversed(K, old(Entries(a, n)))), 0))
    ensures K <= 1 ==> Entries(a, n) == Network(Entries(w, nw), K, Reversed(K, old(Entries(a, n))), 0)
    ensures forall j :: 0 <= j < 2 && j < ip.Length ==> ip[j] == old(ip[j])
    ensures forall i :: n <= i < a.Length ==> a[i] == old(a[i])
  {
    hide Pow, Network, Reversed, Entries, TableServes, Rev, Conjugates;
    SizesAre(n, K);
    ServesLarge(n, w, nw);
    if n > 4 {
      Bitrv2Conj(n, ip, 2, a, K + 1);
      Cftbsub(n, a, w, nw, K);
    } else {
      TinyReversal(Entries(w, nw), K, Entries(a, n));
      if n == 4 {
        Cftfsub(n, a, w, nw, K);
      }
    }
  }

  /** The complex transform of the n/2 numbers in a: forward with kernel theta, backward with its conjugate. */
  method Cdft(n: nat, isgn: int, a: array<real>, ip: array<nat>, w: array<real>, wave: (nat, nat) -> C,
              ghost K: nat, ghost K0: nat, ghost omega0: C, ghost omegaN: C)
    returns (ghost K1: nat, ghost omega1: C)
    requires n == 2 * Pow(2, K) && n <= a.Length && a != w && Ready(ip, w, K0, omega0)
    requires n > 8 && n > 4 * ip[0] ==> WaveOf(wave, n / 4, omegaN) && n / 4 <= w.Length
    requires n > 4 ==> 2 + Pow(2, K / 2) <= ip.Length
    modifies a, ip, w
    ensures Ready(ip, w, K1, omega1) && (K >= 1 ==> n <= 4 * ip[0])
    ensures n <= 4 * old(ip[0]) ==> ip[0] == old(ip[0]) && ip[1] == old(ip[1]) && K1 == K0 && omega1 == omega0
    ensures n <= 4 * old(ip[0]) ==> w[..] == old(w[..])
    ensures n > 4 * old(ip[0]) ==> ip[0] == n / 4 && ip[1] == 1 && K1 == K && omega1 == omegaN
    ensures Primitive(KernelFor(omega1, K1, K), K)
    ensures isgn >= 0 ==> Entries(a, n) == All(old(Entries(a, n)), KernelFor(omega1, K1, K))
    ensures isgn < 0 ==> Entries(a, n) == All(old(Entries(a, n)), Conj(KernelFor(omega1, K1, K)))
    ensures Energy(Entries(a, n)) == Times(Pow(2, K), Energy(old(Entries(a, n))))
    ensures forall i :: n <= i < a.Length ==> a[i] == old(a[i])
  {
    hide Pow, Power, Table, Transform, Energy, Times, Network, Reversed, Entries;
    hide Primitive, DoubleAngle, WaveOf, Conj, All, Conjugates, KernelFor;
    ghost var s := Entries(a, n);
    SizesAre(n, K);
    K1, omega1 := NeedTable(n, ip, w, wave, K, K0, omega0, omegaN);
    var nw := if n > 8 then ip[0] else 0;
    ghost var u := Entries(w, nw);
    ghost var v := ATable(u, K1, omega1, K);
    if K >= 3 {
      TableDoublesAngles(u, K1, omega1);
    }
    ghost var theta := KernelFor(omega1, K1, K);
    assert |Reversed(K, s)| == |Conjugates(Reversed(K, s))| == Pow(2, K);
    Leaves(u, v, K, theta, s);
    assert TableServes(n, w, nw);
    hide TableServes, Ready;
    if isgn >= 0 {
      CdftForward(n, a, ip, w, nw, K);
    } else {
      CdftBackward(n, a, ip, w, nw, K);
    }
  }

  /** What the two directions leave behind. */
  lemma Leaves(u: seq<C>, v: seq<C>, K: nat, theta: C, s: seq<C>)
    requires Table(v, K, theta) && DoubleAngle(v) && |s| == Pow(2, K)
    requires var r := Reversed(K, s);
      Network(u, K, r, 0) == Network(v, K, r, 0) && Network(u, K, Conjugates(r), 0) == Network(v, K, Conjugates(r), 0)
    ensures var r := Network(u, K, Reversed(K, s), 0);
      r == All(s, theta) && Energy(r) == Times(Pow(2, K), Energy(s)) && (K <= 1 ==> Conj(theta) == theta)
    ensures var r := Conjugates(Network(u, K, Conjugates(Reversed(K, s)), 0));
      r == All(s, Conj(theta)) && Energy(r) == Times(Pow(2, K), Energy(s))
  {
    assert K <= 1 ==> Conj(theta) == theta;
    hide *;
    ForwardIs(v, K, theta, s);
    BackwardIs(v, K, theta, s);
  }

  /** What one call does the other undoes: forward and backward give the numbers back, n/2 times as large. */
  method ForwardAndBackward(n: nat, a: array<real>, ip: array<nat>, w: array<real>, wave: (nat, nat) -> C,
                            ghost K: nat, ghost K0: nat, ghost omega0: C, ghost omegaN: C)
    requires K >= 1 && n == 2 * Pow(2, K) && n <= a.Length && a != w && Ready(ip, w, K0, omega0)
    requires n > 8 && n > 4 * ip[0] ==> WaveOf(wave, n / 4, omegaN) && n / 4 <= w.Length
    requires n > 4 ==> 2 + Pow(2, K / 2) <= ip.Length
    modifies a, ip, w
    ensures Entries(a, n) == Scale(C(Pow(2, K) as real, 0.0), old(Entries(a, n)))
  {
    hide *;
    ghost var s := Entries(a, n);
    ghost var K1, omega1 := Cdft(n, 1, a, ip, w, wave, K, K0, omega0, omegaN);
    ghost var theta := KernelFor(omega1, K1, K);
    K1, omega1 := Cdft(n, -1, a, ip, w, wave, K, K1, omega1, omegaN);
    BackAgain(s, theta, K);
  }

  lemma BackAgain(s: seq<C>, theta: C, K: nat)
    requires K >= 1 && |s| == Pow(2, K) && Primitive(theta, K)
    ensures All(All(s, theta), Conj(theta)) == Scale(C(Pow(2, K) as real, 0.0), s)
  {
    hide Transform, Mul, Power, Norm, Conj;
    var N := C(Pow(2, K) as real, 0.0);
    forall j: nat | j < |s| ensures All(All(s, theta), Conj(theta))[j] == Scale(N, s)[j] {
      Inverse(s, theta, K, j);
      MulComm(s[j], N);
    }
  }
}
