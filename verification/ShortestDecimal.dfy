/** The decimals that read back as a given number, and which of them are shortest. */
module ShortestDecimal {
  import opened Words

  /** The number N/S with the gaps lo/S below and hi/S above it. Decimals in the gap read back as N/S;
      the end points count when the mantissa is even. */
  datatype Gap = Gap(N: nat, S: nat, lo: nat, hi: nat, even: bool) {
    ghost predicate Valid() {
      0 < S <= N < 10 * S && 0 < lo <= hi
    }
  }

  /** X / 10^f lies in the gap. */
  ghost predicate In(g: Gap, X: int, f: nat)
  {
    var p := Pow(10, f);
    if g.even then g.N * p - g.lo * p <= X * g.S <= g.N * p + g.hi * p
    else g.N * p - g.lo * p < X * g.S < g.N * p + g.hi * p
  }

  /** M * 10^e lies in the gap. */
  ghost predicate InExp(g: Gap, M: nat, e: int)
  {
    if e >= 0 then In(g, M * Pow(10, e), 0) else In(g, M, -e)
  }

  /** No decimal of fewer than n significant digits lies in the gap. */
  ghost predicate NoneShorter(g: Gap, n: nat)
    requires n > 0
  {
    forall M: nat, e: int :: 0 < M < Pow(10, n - 1) ==> !InExp(g, M, e)
  }

  /** After f fraction digits: the digits so far spell D and r is left over. */
  ghost predicate Split(g: Gap, f: nat, D: nat, r: nat)
  {
    g.N * Pow(10, f) == D * g.S + r && r < g.S
  }

  /** No decimal with f fraction digits lies in the gap. */
  ghost predicate NoneOnGrid(g: Gap, f: nat)
  {
    forall X: int :: !In(g, X, f)
  }

  lemma LowIn(g: Gap, f: nat, D: nat, r: nat)
    requires g.Valid() && Split(g, f, D, r)
    ensures In(g, D, f) <==> if g.even then r <= g.lo * Pow(10, f) else r < g.lo * Pow(10, f)
  {
    MulPos(g.hi, Pow(10, f));
  }

  lemma HighIn(g: Gap, f: nat, D: nat, r: nat)
    requires g.Valid() && Split(g, f, D, r)
    ensures In(g, D + 1, f) <==> if g.even then g.S - r <= g.hi * Pow(10, f) else g.S - r < g.hi * Pow(10, f)
  {
    MulPos(g.lo, Pow(10, f));
    Distribute(g.S, D, 1);
  }

  lemma MulPos(a: nat, p: nat)
    requires a > 0 && p > 0
    ensures a * p > 0
  {
  }

  /** Only the two grid points around N/S can be the nearest ones in the gap. */
  lemma NeighboursDecide(g: Gap, f: nat, D: nat, r: nat, X: int)
    requires g.Valid() && Split(g, f, D, r) && In(g, X, f)
    ensures X <= D ==> In(g, D, f)
    ensures X > D ==> In(g, D + 1, f)
  {
    MulPos(g.lo, Pow(10, f));
    MulPos(g.hi, Pow(10, f));
    Distribute(g.S, D, 1);
    hide Pow;
    if X <= D {
      IntMono(g.S, X, D);
    } else {
      IntMono(g.S, D + 1, X);
    }
  }

  lemma IntMono(s: nat, a: int, b: int)
    requires a <= b
    ensures a * s <= b * s
  {
  }

  lemma GridEmpty(g: Gap, f: nat, D: nat, r: nat)
    requires g.Valid() && Split(g, f, D, r) && !In(g, D, f) && !In(g, D + 1, f)
    ensures NoneOnGrid(g, f)
  {
    forall X: int
      ensures !In(g, X, f)
    {
      if In(g, X, f) {
        NeighboursDecide(g, f, D, r, X);
      }
    }
  }

  /** A coarser grid is part of a finer one. */
  lemma {:induction false} Refine(g: Gap, X: int, f: nat, d: nat)
    requires In(g, X, f)
    ensures In(g, X * Pow(10, d), f + d)
    decreases d
  {
    if d == 0 {
    } else {
      Refine(g, X, f, d - 1);
      RefineOne(g, X * Pow(10, d - 1), f + d - 1);
      assert (X * Pow(10, d - 1)) * 10 == X * Pow(10, d) by {
        IntAssoc(X, Pow(10, d - 1));
      }
    }
  }

  lemma IntAssoc(x: int, p: nat)
    ensures (x * p) * 10 == x * (10 * p)
  {
  }

  lemma RefineOne(g: Gap, X: int, f: nat)
    ensures In(g, X, f) <==> In(g, X * 10, f + 1)
  {
    var p := Pow(10, f);
    assert Pow(10, f + 1) == 10 * p;
    hide Pow;
    TenTimes(g.N, p);
    TenTimes(g.lo, p);
    TenTimes(g.hi, p);
    TenTimes(X, g.S);
  }

  lemma TenTimes(a: int, p: int)
    ensures a * (10 * p) == 10 * (a * p)
    ensures (a * 10) * p == 10 * (a * p)
  {
  }

  /** A decimal below 1 in the gap puts 1 in the gap as well. */
  lemma OneIsIn(g: Gap, M: nat, f: nat)
    requires g.Valid() && In(g, M, f) && M < Pow(10, f)
    ensures In(g, Pow(10, f), f)
  {
    var p := Pow(10, f);
    hide Pow;
    IntMono(g.S, M, p);
    IntMono(p, g.S, g.N);
    MulPos(g.hi, p);
  }

  /** When the grid with n-2 fraction digits misses the gap, every decimal of fewer than n digits does. */
  lemma EmptyGridNoneShorter(g: Gap, n: nat)
    requires g.Valid() && n >= 2 && NoneOnGrid(g, n - 2)
    ensures NoneShorter(g, n)
  {
    forall M: nat, e: int | 0 < M < Pow(10, n - 1)
      ensures !InExp(g, M, e)
    {
      if InExp(g, M, e) {
        if e >= 0 {
          Refine(g, M * Pow(10, e), 0, n - 2);
        } else if -e <= n - 2 {
          Refine(g, M, -e, n - 2 + e);
        } else {
          PowMono(10, n - 1, -e);
          OneIsIn(g, M, -e);
          OneOnGrid(g, -e, n - 2);
        }
      }
    }
  }

  /** 1 is on every grid. */
  lemma OneOnGrid(g: Gap, f: nat, d: nat)
    requires In(g, Pow(10, f), f)
    ensures In(g, Pow(10, d), d)
  {
    OneHere(g, f);
    OneHere(g, d);
  }

  lemma OneHere(g: Gap, f: nat)
    ensures In(g, Pow(10, f), f) <==> if g.even then g.N - g.lo <= g.S <= g.N + g.hi else g.N - g.lo < g.S < g.N + g.hi
  {
    CommonFactor(g.N, g.lo, g.S, Pow(10, f));
    CommonFactor(g.S, g.hi, g.N, Pow(10, f));
  }

  lemma CommonFactor(a: int, b: int, c: int, p: nat)
    requires p > 0
    ensures a * p - b * p <= p * c <==> a - b <= c
    ensures a * p - b * p < p * c <==> a - b < c
    ensures p * a <= c * p + b * p <==> a <= c + b
    ensures p * a < c * p + b * p <==> a < c + b
  {
    SignScales(c - (a - b), p);
    SignScales(a - b - c, p);
  }

  lemma SignScales(a: int, p: nat)
    requires p > 0
    ensures a >= 0 <==> a * p >= 0
    ensures a > 0 <==> a * p > 0
  {
  }

  function Abs(x: int): nat
  {
    if x < 0 then -x else x
  }

  /** How far X / 10^f is from N/S, in units of 1/(S 10^f). */
  function Away(g: Gap, f: nat, X: int): nat
  {
    Abs(X * g.S - g.N * Pow(10, f))
  }

  /** P is as near to N/S as any other decimal of f fraction digits in the gap; of two equally near ones it is the
      even one. */
  ghost predicate Nearest(g: Gap, f: nat, P: int)
  {
    forall X: int :: In(g, X, f) && X != P ==>
      Away(g, f, P) <= Away(g, f, X) && (Away(g, f, P) == Away(g, f, X) ==> P % 2 == 0)
  }

  /** Distances of the grid points from N/S, measured in units of 1/(S 10^f). */
  lemma Distances(g: Gap, f: nat, D: nat, r: nat, X: int)
    requires Split(g, f, D, r)
    ensures D * g.S - g.N * Pow(10, f) == 0 - r
    ensures (D + 1) * g.S - g.N * Pow(10, f) == g.S - r
    ensures X < D ==> X * g.S - g.N * Pow(10, f) <= 0 - r - g.S
    ensures X > D + 1 ==> X * g.S - g.N * Pow(10, f) >= 2 * g.S - r
  {
    Distribute(g.S, D, 1);
    Distribute(g.S, D, -1);
    Distribute(g.S, D, 2);
    hide Pow;
    if X < D {
      IntMono(g.S, X, D - 1);
    } else if X > D + 1 {
      IntMono(g.S, D + 2, X);
    }
  }

  lemma LowIsNearest(g: Gap, f: nat, D: nat, r: nat)
    requires g.Valid() && Split(g, f, D, r)
    requires !In(g, D + 1, f) || 2 * r < g.S || (2 * r == g.S && D % 2 == 0)
    ensures Nearest(g, f, D)
  {
    hide In, Pow;
    forall X: int | In(g, X, f) && X != D
      ensures Away(g, f, D) <= Away(g, f, X) && (Away(g, f, D) == Away(g, f, X) ==> D % 2 == 0)
    {
      Distances(g, f, D, r, X);
      NeighboursDecide(g, f, D, r, X);
    }
  }

  lemma HighIsNearest(g: Gap, f: nat, D: nat, r: nat)
    requires g.Valid() && Split(g, f, D, r)
    requires !In(g, D, f) || 2 * r > g.S || (2 * r == g.S && D % 2 == 1)
    ensures Nearest(g, f, D + 1)
  {
    hide In, Pow;
    forall X: int | In(g, X, f) && X != D + 1
      ensures Away(g, f, D + 1) <= Away(g, f, X) && (Away(g, f, D + 1) == Away(g, f, X) ==> (D + 1) % 2 == 0)
    {
      Distances(g, f, D, r, X);
      NeighboursDecide(g, f, D, r, X);
    }
  }
}
