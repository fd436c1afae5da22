/** What the integers of the digit loop stand for: real numbers, powers of two and ten. */
module DecimalMeaning {
  import opened Words
  import opened ShortestDecimal
  import opened Scaling
  import opened DigitLoop

  /** b^e for any whole exponent. */
  function RPow(b: nat, e: int): (r: real)
    requires b > 0
    ensures r > 0.0
  {
    if e >= 0 then Pow(b, e) as real else 1.0 / (Pow(b, -e) as real)
  }

  lemma RealMul(a: int, b: int)
    ensures (a * b) as real == (a as real) * (b as real)
  {
  }

  /** The power of a difference is a quotient of powers. */
  lemma RPowDiff(b: nat, d: nat, e: nat)
    requires b > 0
    ensures RPow(b, d - e) * (Pow(b, e) as real) == Pow(b, d) as real
  {
    hide Pow, RPow;
    if d >= e {
      RPowUp(b, d - e, e);
    } else {
      RPowDown(b, e - d, d);
    }
  }

  lemma RPowUp(b: nat, c: nat, e: nat)
    requires b > 0
    ensures RPow(b, c) * (Pow(b, e) as real) == Pow(b, c + e) as real
  {
    hide Pow, RPow;
    assert RPow(b, c) * (Pow(b, e) as real) == Pow(b, c + e) as real by {
      RPowWhole(b, c);
      PowAdd(b, c, e);
      Rescale(RPow(b, c), Pow(b, c), Pow(b, e), Pow(b, c + e));
    }
  }

  lemma RPowDown(b: nat, c: nat, d: nat)
    requires b > 0 && c > 0
    ensures RPow(b, 0 - c) * (Pow(b, c + d) as real) == Pow(b, d) as real
  {
    hide Pow, RPow;
    assert RPow(b, 0 - c) * (Pow(b, c + d) as real) == Pow(b, d) as real by {
      RPowInverse(b, c);
      PowAdd(b, c, d);
      Unscale(RPow(b, 0 - c), Pow(b, c), Pow(b, d), Pow(b, c + d));
    }
  }

  lemma Rescale(x: real, y: nat, z: nat, w: nat)
    requires x == y as real && w == y * z
    ensures x * (z as real) == w as real
  {
    RealMul(y, z);
  }

  lemma Unscale(x: real, y: nat, z: nat, w: nat)
    requires x * (y as real) == 1.0 && w == y * z
    ensures x * (w as real) == z as real
  {
    RealMul(y, z);
    RAssoc(x, y as real, z as real);
  }

  lemma RPowWhole(b: nat, e: nat)
    requires b > 0
    ensures RPow(b, e) == Pow(b, e) as real
  {
  }

  lemma RPowInverse(b: nat, e: nat)
    requires b > 0 && e > 0
    ensures RPow(b, 0 - e) * (Pow(b, e) as real) == 1.0
  {
    Inverse(Pow(b, e) as real);
  }

  lemma Inverse(x: real)
    requires x > 0.0
    ensures (1.0 / x) * x == 1.0
  {
  }

  lemma RAssoc(a: real, b: real, c: real)
    ensures a * (b * c) == (a * b) * c
  {
  }

  lemma RSwap(a: real, b: real, p: real, q: real)
    ensures (a * b) * (p * q) == (a * p) * (b * q)
  {
    RAssoc(a * b, p, q);
    RAssoc(a, b, p);
    RAssoc(a, p, b);
    RAssoc(a * p, b, q);
    assert b * p == p * b;
  }

  lemma RCancel(a: real, b: real, c: real)
    requires c > 0.0
    ensures a * c == b * c <==> a == b
    ensures a * c <= b * c <==> a <= b
    ensures a * c < b * c <==> a < b
  {
    if a < b {
      assert (b - a) * c > 0.0;
    } else if b < a {
      assert (a - b) * c > 0.0;
    }
  }

  lemma {:induction false} RPowAdd(b: nat, d: int, e: int)
    requires b > 0
    ensures RPow(b, d + e) == RPow(b, d) * RPow(b, e)
  {
    var dp, dn, ep, en := Plus(d), Plus(-d), Plus(e), Plus(-e);
    assert dp == dn + d && ep == en + e;
    hide *;
    RPowAddParts(b, d, e, dp, dn, ep, en);
  }

  lemma RPowAddParts(b: nat, d: int, e: int, dp: nat, dn: nat, ep: nat, en: nat)
    requires b > 0 && d == dp - dn && e == ep - en
    ensures RPow(b, d + e) == RPow(b, d) * RPow(b, e)
  {
    hide *;
    DiffRatio(b, d, dp, dn);
    DiffRatio(b, e, ep, en);
    DiffRatio(b, d + e, dp + ep, dn + en);
    ProductRatio(b, dp, dn, ep, en, RPow(b, d), RPow(b, e), RPow(b, d + e));
  }

  lemma ProductRatio(b: nat, dp: nat, dn: nat, ep: nat, en: nat, x: real, y: real, z: real)
    requires IsRatio(x, Pow(b, dp), Pow(b, dn)) && IsRatio(y, Pow(b, ep), Pow(b, en))
    requires IsRatio(z, Pow(b, dp + ep), Pow(b, dn + en))
    ensures z == x * y
  {
    hide *;
    PowProduct(b, dp, ep);
    PowProduct(b, dn, en);
    QuotientsMultiply(x, y, z, Pow(b, dp), Pow(b, dn), Pow(b, ep), Pow(b, en), Pow(b, dp + ep), Pow(b, dn + en));
  }

  /** t is a over b. */
  ghost predicate IsRatio(t: real, a: nat, b: nat)
  {
    b > 0 && t * (b as real) == a as real
  }

  ghost predicate ProductOf(p: nat, a: nat, b: nat)
  {
    p == a * b
  }

  lemma PowProduct(b: nat, d: nat, e: nat)
    ensures ProductOf(Pow(b, d + e), Pow(b, d), Pow(b, e))
  {
    PowAdd(b, d, e);
  }

  lemma DiffRatio(b: nat, e: int, p: nat, q: nat)
    requires b > 0 && e == p - q
    ensures IsRatio(RPow(b, e), Pow(b, p), Pow(b, q))
  {
    hide Pow, RPow;
    RPowDiff(b, p, q);
  }

  lemma QuotientsMultiply(x: real, y: real, z: real, a: nat, b: nat, c: nat, d: nat, ac: nat, bd: nat)
    requires ProductOf(ac, a, c) && ProductOf(bd, b, d) && IsRatio(x, a, b) && IsRatio(y, c, d) && IsRatio(z, ac, bd)
    ensures z == x * y
  {
    RealMul(b, d);
    RealMul(a, c);
    var r, s := b as real, d as real;
    RSwap(x, r, y, s);
    MulPosReal(r, s);
    RCancel(z, x * y, r * s);
  }

  lemma MulPosReal(a: real, b: real)
    requires a > 0.0 && b > 0.0
    ensures a * b > 0.0
  {
  }

  lemma PowRatio(b: nat, e: int)
    requires b > 0
    ensures IsRatio(RPow(b, e), Pow(b, Plus(e)), Pow(b, Plus(-e)))
  {
    hide Pow, RPow;
    RPowDiff(b, Plus(e), Plus(-e));
    assert Plus(e) - Plus(-e) == e;
  }

  /** The equation of a ratio, for powers p over p' of two and q over q' of ten. */
  ghost predicate Cross(x: nat, S: nat, v: nat, p: nat, p': nat, q: nat, q': nat)
  {
    x * (p' * q) == S * (v * p * q')
  }

  lemma RatioParts(x: nat, S: nat, v: nat, e: int, k: int)
    requires Ratio(x, S, v, e, k)
    ensures Cross(x, S, v, Pow(2, Plus(e)), Pow(2, Plus(-e)), Pow(10, Plus(k)), Pow(10, Plus(-k)))
  {
    hide Pow;
  }

  /** A ratio of the set-up, as real numbers. */
  lemma RatioMeans(x: nat, S: nat, v: nat, e: int, k: int)
    requires S > 0 && Ratio(x, S, v, e, k)
    ensures (x as real) * RPow(10, k) == (S as real) * (v as real * RPow(2, e))
  {
    hide *;
    RatioParts(x, S, v, e, k);
    PowRatio(2, e);
    PowRatio(10, k);
    RatioAlgebra(x, S, v, Pow(2, Plus(e)), Pow(2, Plus(-e)), Pow(10, Plus(k)), Pow(10, Plus(-k)), RPow(2, e),
      RPow(10, k));
  }

  lemma RatioAlgebra(x: nat, S: nat, v: nat, p: nat, p': nat, q: nat, q': nat, t: real, u: real)
    requires Cross(x, S, v, p, p', q, q') && IsRatio(t, p, p') && IsRatio(u, q, q')
    ensures (x as real) * u == (S as real) * (v as real * t)
  {
    RealMul(p', q);
    RealMul(x, p' * q);
    RealMul(v, p);
    RealMul(v * p, q');
    RealMul(S, v * p * q');
    RatioReals(x as real, S as real, v as real, p as real, p' as real, q as real, q' as real, t, u);
  }

  lemma RatioReals(x: real, S: real, v: real, p: real, p': real, q: real, q': real, t: real, u: real)
    requires p' > 0.0 && q' > 0.0
    requires x * (p' * q) == S * ((v * p) * q')
    requires t * p' == p && u * q' == q
    ensures x * u == S * (v * t)
  {
    var c := p' * q';
    calc {
      (x * u) * c;
      { RSwap(x, u, p', q'); RAssoc(x, p', u * q'); }
      x * (p' * q);
      S * ((v * p) * q');
      { RAssoc(v, t, p'); RAssoc(v * t, p', q'); RAssoc(S, v * t, c); }
      (S * (v * t)) * c;
    }
    MulPosReal(p', q');
    RCancel(x * u, S * (v * t), c);
  }

  function Distance(a: real, b: real): real
  {
    if a < b then b - a else a - b
  }

  /** The flag says on which side of x the number y lies. */
  ghost predicate SideNamed(inex: Inexact, x: real, y: real)
  {
    match inex
    case Exact => y == x
    case Inexlo => y < x
    case Inexhi => y > x
  }

  /** x reads back as v: it lies in the gap around v, whose ends count when the mantissa is even. */
  ghost predicate Reads(x: real, v: real, lo: real, hi: real, even: bool)
  {
    if even then v - lo <= x <= v + hi else v - lo < x < v + hi
  }

  /** M * 10^e as a real number. */
  function Decimal(M: int, e: int): real
  {
    (M as real) * RPow(10, e)
  }

  lemma DecimalMono(a: int, b: int, e: int)
    ensures a <= b <==> Decimal(a, e) <= Decimal(b, e)
    ensures a < b <==> Decimal(a, e) < Decimal(b, e)
  {
    hide RPow;
    RCancel(a as real, b as real, RPow(10, e));
  }

  /** Scaling by S and 10^k keeps the order: a/S stands for w, X/p for X*r. */
  lemma SideMeans(a: real, X: real, S: real, p: real, K: real, r: real, w: real)
    requires S > 0.0 && p > 0.0 && K > 0.0 && a * K == S * w && r * p == K
    ensures a * p <= X * S <==> w <= X * r
    ensures a * p < X * S <==> w < X * r
    ensures a * p >= X * S <==> w >= X * r
    ensures a * p > X * S <==> w > X * r
  {
    assert (X * r) * (p * S) == (X * S) * K by {
      RSwap(X, r, S, p);
    }
    assert w * (p * S) == (a * p) * K by {
      RAssoc(w, S, p);
      RSwap(a, K, p, 1.0);
    }
    MulPosReal(p, S);
    RCancel(w, X * r, p * S);
    RCancel(X * r, w, p * S);
    RCancel(a * p, X * S, K);
    RCancel(X * S, a * p, K);
  }

  /** A Gap of the loop stands for a gap around v, for decimals scaled by 10^k. */
  ghost predicate GapStands(g: Gap, k: int, v: real, lo: real, hi: real)
  {
    g.S > 0 &&
    (g.N as real) * RPow(10, k) == (g.S as real) * v &&
    (g.lo as real) * RPow(10, k) == (g.S as real) * lo &&
    (g.hi as real) * RPow(10, k) == (g.S as real) * hi
  }

  lemma RDistribute(a: real, b: real, c: real)
    ensures (a + b) * c == a * c + b * c && (a - b) * c == a * c - b * c
    ensures c * (a + b) == c * a + c * b && c * (a - b) == c * a - c * b
  {
  }

  lemma InMeans(g: Gap, X: int, f: nat, k: int, v: real, lo: real, hi: real)
    requires GapStands(g, k, v, lo, hi)
    ensures In(g, X, f) <==> Reads(Decimal(X, k - f), v, lo, hi, g.even)
  {
    hide Pow, RPow;
    var p, K, r := Pow(10, f), RPow(10, k), RPow(10, k - f);
    assert r * (p as real) == K by {
      RPowAdd(10, k - f, f);
      RPowWhole(10, f);
    }
    InReals(g, X, p, K, r, v, lo, hi);
  }

  lemma InReals(g: Gap, X: int, p: nat, K: real, r: real, v: real, lo: real, hi: real)
    requires g.S > 0 && p > 0 && K > 0.0 && r * (p as real) == K
    requires (g.N as real) * K == (g.S as real) * v
    requires (g.lo as real) * K == (g.S as real) * lo && (g.hi as real) * K == (g.S as real) * hi
    ensures g.N * p - g.lo * p <= X * g.S <==> v - lo <= (X as real) * r
    ensures g.N * p - g.lo * p < X * g.S <==> v - lo < (X as real) * r
    ensures g.N * p + g.hi * p >= X * g.S <==> v + hi >= (X as real) * r
    ensures g.N * p + g.hi * p > X * g.S <==> v + hi > (X as real) * r
  {
    assert ((g.N - g.lo) as real) * K == (g.S as real) * (v - lo) by {
      RDistribute(g.N as real, g.lo as real, K);
      RDistribute(v, lo, g.S as real);
    }
    assert ((g.N + g.hi) as real) * K == (g.S as real) * (v + hi) by {
      RDistribute(g.N as real, g.hi as real, K);
      RDistribute(v, hi, g.S as real);
    }
    assert g.N * p + g.hi * p == (g.N + g.hi) * p && g.N * p - g.lo * p == (g.N - g.lo) * p by {
      Distribute(p, g.N, g.hi);
      Distribute(p, g.N, 0 - g.lo);
    }
    WholeSideMeans(g.N - g.lo, X, g.S, p, K, r, v - lo);
    WholeSideMeans(g.N + g.hi, X, g.S, p, K, r, v + hi);
  }

  lemma WholeSideMeans(a: int, X: int, S: nat, p: nat, K: real, r: real, w: real)
    requires S > 0 && p > 0 && K > 0.0 && r * (p as real) == K
    requires (a as real) * K == (S as real) * w
    ensures a * p <= X * S <==> w <= (X as real) * r
    ensures a * p < X * S <==> w < (X as real) * r
    ensures a * p >= X * S <==> w >= (X as real) * r
    ensures a * p > X * S <==> w > (X as real) * r
  {
    SideMeans(a as real, X as real, S as real, p as real, K, r, w);
    RealMul(a, p);
    RealMul(X, S);
  }

  lemma InExpMeans(g: Gap, M: nat, e: int, k: int, v: real, lo: real, hi: real)
    requires GapStands(g, k, v, lo, hi)
    ensures InExp(g, M, e) <==> Reads(Decimal(M, k + e), v, lo, hi, g.even)
  {
    hide Pow, RPow, GapStands, In;
    if e >= 0 {
      InMeans(g, M * Pow(10, e), 0, k, v, lo, hi);
      DecimalShift(M, e, k);
    } else {
      InMeans(g, M, -e, k, v, lo, hi);
    }
  }

  lemma DecimalShift(M: nat, e: nat, k: int)
    ensures Decimal(M * Pow(10, e), k) == Decimal(M, k + e)
  {
    hide Pow, RPow;
    assert Decimal(M * Pow(10, e), k) == Decimal(M, k + e) by {
      RPowAdd(10, e, k);
      RPowWhole(10, e);
      RealMul(M, Pow(10, e));
      RAssoc(M as real, RPow(10, e), RPow(10, k));
    }
  }

  /** M * 10^e reads back as v, and no decimal of fewer than n digits does. */
  ghost predicate ShortestReading(M: nat, e: int, n: nat, v: real, lo: real, hi: real, even: bool)
    requires n > 0
  {
    Reads(Decimal(M, e), v, lo, hi, even) &&
    forall M': nat, e': int :: 0 < M' < Pow(10, n - 1) ==> !Reads(Decimal(M', e'), v, lo, hi, even)
  }

  lemma ShortestMeans(g: Gap, n: nat, M: nat, grown: nat, k: int, v: real, lo: real, hi: real)
    requires GapStands(g, k, v, lo, hi) && n > 0
    requires In(g, M * Pow(10, grown), n - 1) && NoneShorter(g, n)
    ensures ShortestReading(M, k + grown + 1 - n, n, v, lo, hi, g.even)
  {
    hide Pow, RPow, GapStands, In, InExp, Reads, Decimal;
    InMeans(g, M * Pow(10, grown), n - 1, k, v, lo, hi);
    DecimalShift(M, grown, k - (n - 1));
    forall M': nat, e': int | 0 < M' < Pow(10, n - 1)
      ensures !Reads(Decimal(M', e'), v, lo, hi, g.even)
    {
      InExpMeans(g, M', e' - k, k, v, lo, hi);
    }
  }

  /** v b^e. */
  function Placed(b: nat, v: nat, e: int): real
    requires b > 0
  {
    v as real * RPow(b, e)
  }

  lemma TimesBounds(m: real, p: real, r: real, t: real)
    requires 1.0 <= m < p && r > 0.0 && t == p * r
    ensures r <= m * r < t
  {
    RCancel(m, p, r);
    RCancel(1.0, m, r);
  }

  /** v b^e with fewer than n digits in v. */
  lemma PlaceBounds(b: nat, v: nat, n: nat, e: int)
    requires b > 0 && 0 < v < Pow(b, n)
    ensures RPow(b, e) <= Placed(b, v, e) < RPow(b, n + e)
  {
    hide RPow, Pow;
    RPowAdd(b, n, e);
    RPowWhole(b, n);
    var m, r := v as real, RPow(b, e);
    TimesBounds(m, RPow(b, n), r, RPow(b, n + e));
    assert Placed(b, v, e) == m * r;
  }

  lemma MorePower(b: nat, n: nat)
    requires b > 1 && n > 0
    ensures RPow(b, n) > 1.0
  {
    PowStrict(b, 0, n);
  }

  lemma GrowsPositive(v: real, p: real, q: real, r: real)
    requires v > 0.0 && p > 0.0 && q > 1.0 && r == p * q
    ensures v * r > v * p
  {
    MulPosReal(p, q - 1.0);
    MulPosReal(v, r - p);
  }

  lemma RPowGrows(b: nat, d: int, e: int)
    requires b > 1 && d < e
    ensures RPow(b, d) < RPow(b, e)
  {
    hide Pow, RPow;
    var n := e - d;
    RPowAdd(b, d, n);
    assert RPow(b, e) == RPow(b, d) * RPow(b, n);
    MorePower(b, n);
    GrowsPositive(1.0, RPow(b, d), RPow(b, n), RPow(b, e));
  }
}
