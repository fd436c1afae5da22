/** The discrete Fourier transform as a sum, and the radix-2 network that computes it. */
module Dft {
  import opened Words
  import opened Complex
  import opened BitReversal

  /** The first n terms of the sum of x[j] theta^(j k). */
  function Sum(x: seq<C>, theta: C, k: nat, n: nat): C
    requires n <= |x|
  {
    if n == 0 then ZERO else Add(Sum(x, theta, k, n - 1), Mul(x[n - 1], Power(theta, (n - 1) * k)))
  }

  /** Entry k of the transform of x with kernel theta. */
  function Transform(x: seq<C>, theta: C, k: nat): C
  {
    Sum(x, theta, k, |x|)
  }

  function Evens(x: seq<C>): (r: seq<C>)
    ensures |r| == |x| / 2
  {
    seq(|x| / 2, i requires 0 <= i < |x| / 2 => x[2 * i])
  }

  function Odds(x: seq<C>): (r: seq<C>)
    ensures |r| == |x| / 2
  {
    seq(|x| / 2, i requires 0 <= i < |x| / 2 => x[2 * i + 1])
  }

  lemma TwoTerms(theta: C, k: nat, n: nat)
    ensures Power(theta, (2 * n) * k) == Power(Mul(theta, theta), n * k)
    ensures Power(theta, (2 * n + 1) * k) == Mul(Power(theta, k), Power(Mul(theta, theta), n * k))
  {
    hide Mul;
    assert Power(theta, 2) == Mul(theta, theta) by {
      PowerFirst(theta);
      assert Power(theta, 2) == Mul(theta, Power(theta, 1));
    }
    PowerPower(theta, 2, n * k);
    assert (2 * n) * k == 2 * (n * k) && (2 * n + 1) * k == k + 2 * (n * k);
    PowerAdd(theta, k, 2 * (n * k));
  }

  lemma AddFour(a: C, b: C, c: C, d: C)
    ensures Add(Add(Add(a, b), c), d) == Add(Add(a, c), Add(b, d))
  {
  }

  /** The even terms and the odd terms separately. */
  lemma {:induction false} SumSplits(x: seq<C>, theta: C, k: nat, n: nat)
    requires 2 * n <= |x|
    ensures var t2 := Mul(theta, theta);
      Sum(x, theta, k, 2 * n) == Add(Sum(Evens(x), t2, k, n), Mul(Power(theta, k), Sum(Odds(x), t2, k, n)))
  {
    hide Mul, Add;
    var t2, w := Mul(theta, theta), Power(theta, k);
    if n == 0 {
      MulOne(w);
      MulOne(ZERO);
    } else {
      SumSplits(x, theta, k, n - 1);
      TwoTerms(theta, k, n - 1);
      var p, e, o := Power(t2, (n - 1) * k), x[2 * n - 2], x[2 * n - 1];
      assert Evens(x)[n - 1] == e && Odds(x)[n - 1] == o;
      var E, O := Sum(Evens(x), t2, k, n - 1), Sum(Odds(x), t2, k, n - 1);
      assert Sum(x, theta, k, 2 * n) == Add(Sum(x, theta, k, 2 * n - 1), Mul(o, Power(theta, (2 * n - 1) * k)));
      assert Sum(x, theta, k, 2 * n - 1) == Add(Sum(x, theta, k, 2 * n - 2), Mul(e, Power(theta, (2 * n - 2) * k)));
      AddFour(E, Mul(w, O), Mul(e, p), Mul(w, Mul(o, p)));
      CDistribute(w, O, Mul(o, p));
      CMulAssoc(o, w, p);
      CMulAssoc(w, o, p);
      MulComm(o, w);
    }
  }

  lemma TransformSplits(x: seq<C>, theta: C, k: nat)
    requires |x| % 2 == 0
    ensures var t2 := Mul(theta, theta);
      Transform(x, theta, k) == Add(Transform(Evens(x), t2, k), Mul(Power(theta, k), Transform(Odds(x), t2, k)))
  {
    hide Mul;
    SumSplits(x, theta, k, |x| / 2);
  }

  /** With theta^p = 1 the transform has period p. */
  lemma {:induction false} SumPeriodic(x: seq<C>, theta: C, k: nat, p: nat, n: nat)
    requires n <= |x| && Power(theta, p) == ONE
    ensures Sum(x, theta, k + p, n) == Sum(x, theta, k, n)
  {
    hide Mul;
    if n > 0 {
      SumPeriodic(x, theta, k, p, n - 1);
      PowerPeriodic(theta, k, p, n - 1);
    }
  }

  lemma PowerPeriodic(theta: C, k: nat, p: nat, n: nat)
    requires Power(theta, p) == ONE
    ensures Power(theta, n * (k + p)) == Power(theta, n * k)
  {
    hide Mul, Power;
    assert n * (k + p) == n * k + p * n;
    PowerAdd(theta, n * k, p * n);
    PowerPower(theta, p, n);
    PowerOne(n);
    MulOne(Power(theta, n * k));
  }

  function Sums(a: seq<C>, b: seq<C>): (r: seq<C>)
    requires |a| == |b|
    ensures |r| == |a|
  {
    seq(|a|, i requires 0 <= i < |a| => Add(a[i], b[i]))
  }

  function Turns(a: seq<C>, b: seq<C>, t: C): (r: seq<C>)
    requires |a| == |b|
    ensures |r| == |a|
  {
    seq(|a|, i requires 0 <= i < |a| => Mul(t, Sub(a[i], b[i])))
  }

  /** Sum and difference of two numbers in place of the numbers, the difference turned by t. */
  function Pairwise(a: seq<C>, b: seq<C>, t: C): (r: seq<C>)
    requires |a| == |b|
    ensures |r| == 2 * |a|
  {
    Sums(a, b) + Turns(a, b, t)
  }

  /** The factor of block b: 1, i, and then the table u for even b and i times it for odd b. */
  function Factor(u: seq<C>, b: nat): C
  {
    if b == 0 then ONE
    else if b == 1 then I
    else if b / 2 >= |u| then ONE
    else if b % 2 == 0 then u[b / 2]
    else Mul(I, u[b / 2])
  }

  /** The network on block B of 2^k numbers: its halves are blocks 2B and 2B + 1 one stage before. */
  function Network(u: seq<C>, k: nat, s: seq<C>, B: nat): (r: seq<C>)
    requires |s| == Pow(2, k)
    ensures |r| == |s|
    decreases k
  {
    if k == 0 then s
    else
      var h := Pow(2, k - 1);
      Pairwise(Network(u, k - 1, s[..h], 2 * B), Network(u, k - 1, s[h..], 2 * B + 1), Factor(u, B))
  }

  /** Reversing puts the numbers of even index in the first half. */
  lemma ReversedHalves(k: nat, x: seq<C>)
    requires k > 0 && |x| == Pow(2, k)
    ensures |Evens(x)| == |Odds(x)| == Pow(2, k - 1)
    ensures Reversed(k, x)[..Pow(2, k - 1)] == Reversed(k - 1, Evens(x))
    ensures Reversed(k, x)[Pow(2, k - 1)..] == Reversed(k - 1, Odds(x))
  {
    var h, r := Pow(2, k - 1), Reversed(k, x);
    forall p: nat | p < h
      ensures r[..h][p] == Reversed(k - 1, Evens(x))[p] && r[h..][p] == Reversed(k - 1, Odds(x))[p]
    {
      RevGrows(k - 1, p);
    }
  }

  /** The table u serves transforms of 2^K numbers with kernel omega: its entries are powers of omega with
      reversed exponents, and omega is a root of unity of order 2^K, i being its power 2^(K-2). */
  ghost predicate Table(u: seq<C>, K: nat, omega: C)
  {
    if K == 0 then omega == ONE
    else if K == 1 then omega == C(-1.0, 0.0)
    else
      Power(omega, Pow(2, K - 2)) == I && Norm(omega) == 1.0 && Pow(2, K - 2) <= |u| &&
      forall p :: 0 < p < Pow(2, K - 2) ==> u[p] == Power(omega, Rev(K - 2, p))
  }

  /** Half a turn is -1. */
  lemma HalfTurn(u: seq<C>, K: nat, omega: C)
    requires K > 0 && Table(u, K, omega)
    ensures Power(omega, Pow(2, K - 1)) == C(-1.0, 0.0)
  {
    PowerFirst(omega);
    if K > 1 {
      var q := Pow(2, K - 2);
      assert Pow(2, K - 1) == q + q;
      PowerAdd(omega, q, q);
    }
  }

  lemma {:induction false} RevOfOne(b: nat)
    ensures Rev(b, 0) == 0
    ensures b > 0 ==> Rev(b, 1) == Pow(2, b - 1)
  {
    if b > 0 {
      RevOfOne(b - 1);
    }
  }

  /** The factor of block b is omega to the reversal of b. */
  lemma FactorIs(u: seq<C>, K: nat, omega: C, b: nat)
    requires K > 0 && Table(u, K, omega) && b < Pow(2, K - 1)
    ensures Factor(u, b) == Power(omega, Rev(K - 1, b))
  {
    hide Mul;
    RevOfOne(K - 1);
    if b > 1 {
      assert Pow(2, K - 1) == 2 * Pow(2, K - 2);
      assert Rev(K - 1, b) == b % 2 * Pow(2, K - 2) + Rev(K - 2, b / 2);
      assert u[b / 2] == Power(omega, Rev(K - 2, b / 2));
      if b % 2 == 1 {
        PowerAdd(omega, Pow(2, K - 2), Rev(K - 2, b / 2));
      }
    }
  }

  /** Where block B of 2^k numbers stands in a transform of 2^K: the kernel for its size and its own turn. */
  function Kernel(omega: C, K: nat, k: nat): C
    requires k <= K
  {
    Power(omega, Pow(2, K - k))
  }

  function Start(omega: C, K: nat, k: nat, B: nat): C
    requires k <= K
  {
    Power(omega, Rev(K - k, B))
  }

  lemma KernelSquared(omega: C, K: nat, k: nat)
    requires 0 < k <= K
    ensures Kernel(omega, K, k - 1) == Mul(Kernel(omega, K, k), Kernel(omega, K, k))
  {
    hide Mul;
    var p := Pow(2, K - k);
    assert Pow(2, K - (k - 1)) == p + p;
    PowerAdd(omega, p, p);
  }

  lemma StartOfHalves(omega: C, K: nat, k: nat, B: nat)
    requires 0 < k <= K
    ensures Start(omega, K, k - 1, 2 * B) == Start(omega, K, k, B)
    ensures Start(omega, K, k - 1, 2 * B + 1) == Mul(Kernel(omega, K, k), Start(omega, K, k, B))
  {
    hide Mul;
    var b := K - k;
    assert Rev(b + 1, 2 * B) == Rev(b, B) && Rev(b + 1, 2 * B + 1) == Pow(2, b) + Rev(b, B);
    PowerAdd(omega, Pow(2, b), Rev(b, B));
  }

  /** The factor of a block is its turn to half its size; the kernel to half its size is -1. */
  lemma HalfSize(u: seq<C>, omega: C, K: nat, k: nat, B: nat)
    requires 0 < k <= K && Table(u, K, omega) && B < Pow(2, K - k)
    ensures Factor(u, B) == Power(Start(omega, K, k, B), Pow(2, k - 1))
    ensures Power(Kernel(omega, K, k), Pow(2, k - 1)) == C(-1.0, 0.0)
  {
    hide Mul, Factor, Pow, Power, Rev, Table;
    PowMono(2, K - k, K - 1);
    FactorIs(u, K, omega, B);
    RevParts(K - k, k - 1, B, 0);
    assert Pow(2, K - k) * 0 == 0 && K - k + (k - 1) == K - 1;
    RevOfOne(k - 1);
    assert Rev(K - 1, B) == Pow(2, k - 1) * Rev(K - k, B) == Rev(K - k, B) * Pow(2, k - 1);
    PowerPower(omega, Rev(K - k, B), Pow(2, k - 1));
    PowAdd(2, K - k, k - 1);
    PowerPower(omega, Pow(2, K - k), Pow(2, k - 1));
    HalfTurn(u, K, omega);
  }

  /** One sum of the network: the transform of even and odd numbers put together. */
  lemma LowerEntry(tau: C, theta: C, p: nat, E: C, O: C)
    ensures Add(Mul(Power(tau, p), E), Mul(Power(Mul(theta, tau), p), O)) ==
            Mul(Power(tau, p), Add(E, Mul(Power(theta, p), O)))
  {
    hide Mul;
    PowerMul(theta, tau, p);
    var t, w := Power(tau, p), Power(theta, p);
    CDistribute(t, E, Mul(w, O));
    CMulAssoc(t, w, O);
    MulComm(t, w);
  }

  lemma UpperEntry(tau: C, theta: C, p: nat, h: nat, E: C, O: C)
    requires Power(theta, h) == C(-1.0, 0.0)
    ensures Mul(Power(tau, h), Sub(Mul(Power(tau, p), E), Mul(Power(Mul(theta, tau), p), O))) ==
            Mul(Power(tau, h + p), Add(E, Mul(Power(theta, h + p), O)))
  {
    hide *;
    var t, w, f := Power(tau, p), Power(theta, p), Power(tau, h);
    PowerMul(theta, tau, p);
    PowerAdd(tau, h, p);
    PowerAdd(theta, h, p);
    CDistribute(t, E, Mul(w, O));
    CMulAssoc(t, w, O);
    MulComm(t, w);
    CMulAssoc(f, t, Sub(E, Mul(w, O)));
    MulOne(w);
    MinusTimes(w, O);
    AddMinus(E, Mul(w, O));
  }

  lemma AddMinus(a: C, b: C)
    ensures Add(a, Sub(ZERO, b)) == Sub(a, b)
  {
  }

  lemma MinusTimes(w: C, O: C)
    ensures Mul(Sub(ZERO, w), O) == Sub(ZERO, Mul(w, O))
  {
  }

  /** An entry of the network from those of the halves. */
  lemma NetworkEntry(u: seq<C>, k: nat, s: seq<C>, B: nat, q: nat)
    requires k > 0 && |s| == Pow(2, k) && q < Pow(2, k - 1)
    ensures var h := Pow(2, k - 1);
      var a, b := Network(u, k - 1, s[..h], 2 * B)[q], Network(u, k - 1, s[h..], 2 * B + 1)[q];
      Network(u, k, s, B)[q] == Add(a, b) && Network(u, k, s, B)[h + q] == Mul(Factor(u, B), Sub(a, b))
  {
    hide Mul, Add, Sub, Factor;
  }

  /** The value that entry p of a block is to have. */
  function Turned(omega: C, K: nat, k: nat, x: seq<C>, B: nat, p: nat): C
    requires k <= K
  {
    Mul(Power(Start(omega, K, k, B), p), Transform(x, Kernel(omega, K, k), p))
  }

  lemma NetworkStep(u: seq<C>, omega: C, K: nat, k: nat, x: seq<C>, B: nat, p: nat, q: nat, s: seq<C>, h: nat,
                    a: C, b: C)
    requires 0 < k <= K && h == Pow(2, k - 1) && |x| == |s| == Pow(2, k) == 2 * h
    requires Table(u, K, omega) && B < Pow(2, K - k) && q < h && (p == q || p == h + q)
    requires a == Network(u, k - 1, s[..h], 2 * B)[q] == Turned(omega, K, k - 1, Evens(x), 2 * B, q)
    requires b == Network(u, k - 1, s[h..], 2 * B + 1)[q] == Turned(omega, K, k - 1, Odds(x), 2 * B + 1, q)
    ensures Network(u, k, s, B)[p] == Turned(omega, K, k, x, B, p)
  {
    hide *;
    TurnedIs(omega, K, k, x, B, p);
    TurnedIs(omega, K, k - 1, Evens(x), 2 * B, q);
    TurnedIs(omega, K, k - 1, Odds(x), 2 * B + 1, q);
    KernelSquared(omega, K, k);
    StartOfHalves(omega, K, k, B);
    HalfSize(u, omega, K, k, B);
    NetworkEntry(u, k, s, B, q);
    PowerHalves(k);
    Recombine(x, Kernel(omega, K, k), Start(omega, K, k, B), Pow(2, k - 1), p, q, a, b, Network(u, k, s, B)[p]);
  }

  lemma TurnedIs(omega: C, K: nat, k: nat, x: seq<C>, B: nat, p: nat)
    requires k <= K
    ensures Turned(omega, K, k, x, B, p) == Mul(Power(Start(omega, K, k, B), p), Transform(x, Kernel(omega, K, k), p))
  {
  }

  lemma PowerHalves(k: nat)
    requires k > 0
    ensures Pow(2, k) == 2 * Pow(2, k - 1) && Pow(2, k - 1) > 0
  {
  }

  /** What the network makes of a block in reversed order: its transform, turned by the block's own turn. */
  lemma {:induction false} NetworkTransforms(u: seq<C>, omega: C, K: nat, k: nat, x: seq<C>, B: nat, p: nat)
    requires k <= K && Table(u, K, omega) && B < Pow(2, K - k) && |x| == Pow(2, k) && p < Pow(2, k)
    ensures Network(u, k, Reversed(k, x), B)[p] == Turned(omega, K, k, x, B, p)
    decreases k
  {
    hide *;
    if k == 0 {
      SinglePoint(u, omega, K, x, B, p);
    } else {
      PowerHalves(k);
      PowerHalves(K - (k - 1));
      ReversedHalves(k, x);
      var h := Pow(2, k - 1);
      var q := if p < h then p else p - h;
      NetworkTransforms(u, omega, K, k - 1, Evens(x), 2 * B, q);
      NetworkTransforms(u, omega, K, k - 1, Odds(x), 2 * B + 1, q);
      NetworkStep(u, omega, K, k, x, B, p, q, Reversed(k, x), h,
        Turned(omega, K, k - 1, Evens(x), 2 * B, q), Turned(omega, K, k - 1, Odds(x), 2 * B + 1, q));
    }
  }

  lemma SinglePoint(u: seq<C>, omega: C, K: nat, x: seq<C>, B: nat, p: nat)
    requires |x| == Pow(2, 0) && p < Pow(2, 0)
    ensures Network(u, 0, Reversed(0, x), B)[p] == Turned(omega, K, 0, x, B, p)
  {
    OnePoint(x, Kernel(omega, K, 0), Start(omega, K, 0, B));
  }

  lemma Recombine(x: seq<C>, theta: C, tau: C, h: nat, p: nat, q: nat, a: C, b: C, r: C)
    requires |x| == 2 * h && q < h && Power(theta, h) == C(-1.0, 0.0) && (p == q || p == h + q)
    requires a == Mul(Power(tau, q), Transform(Evens(x), Mul(theta, theta), q))
    requires b == Mul(Power(Mul(theta, tau), q), Transform(Odds(x), Mul(theta, theta), q))
    requires r == if p == q then Add(a, b) else Mul(Power(tau, h), Sub(a, b))
    ensures r == Mul(Power(tau, p), Transform(x, theta, p))
  {
    hide *;
    var t2 := Mul(theta, theta);
    TransformSplits(x, theta, p);
    var E, O := Transform(Evens(x), t2, q), Transform(Odds(x), t2, q);
    if p == q {
      LowerEntry(tau, theta, p, E, O);
    } else {
      UpperEntry(tau, theta, q, h, E, O);
      FullTurn(theta, h);
      HalfPeriod(Evens(x), t2, q, h);
      HalfPeriod(Odds(x), t2, q, h);
    }
  }

  lemma OnePoint(x: seq<C>, theta: C, tau: C)
    requires |x| == 1
    ensures Rev(0, 0) == 0 && x[0] == Mul(Power(tau, 0), Transform(x, theta, 0))
  {
    assert Power(theta, 0) == ONE && Power(tau, 0) == ONE;
    MulOne(x[0]);
    assert Sum(x, theta, 0, 1) == Add(Sum(x, theta, 0, 0), Mul(x[0], Power(theta, 0 * 0)));
  }

  lemma FullTurn(theta: C, h: nat)
    requires Power(theta, h) == C(-1.0, 0.0)
    ensures Power(Mul(theta, theta), h) == ONE
  {
    PowerMul(theta, theta, h);
  }

  lemma HalfPeriod(x: seq<C>, t2: C, q: nat, h: nat)
    requires Power(t2, h) == ONE
    ensures Transform(x, t2, h + q) == Transform(x, t2, q)
  {
    hide Mul;
    SumPeriodic(x, t2, q, h, |x|);
    assert h + q == q + h;
  }

  /** The network computes the transform. */
  lemma NetworkIsTransform(u: seq<C>, omega: C, K: nat, x: seq<C>, p: nat)
    requires Table(u, K, omega) && |x| == Pow(2, K) && p < Pow(2, K)
    ensures Network(u, K, Reversed(K, x), 0)[p] == Transform(x, omega, p)
  {
    NetworkTransforms(u, omega, K, K, x, 0, p);
    hide Network, Transform, Mul;
    assert Rev(0, 0) == 0 && Pow(2, 0) == 1;
    PowerFirst(omega);
    PowerOne(p);
    MulOne(Transform(x, omega, p));
  }
}
