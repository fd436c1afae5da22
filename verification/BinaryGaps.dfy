/** What the gaps of binary numbers cannot be: no number has the end of its gap on ten and nine in it. */
module BinaryGaps {
  import opened Words
  import opened ShortestDecimal
  import opened DigitLoop
  import opened Scaling
  import opened SetUp
  import opened DecimalMeaning

  /** A number has one odd part. */
  lemma {:induction false} OddPartUnique(s: nat, t: nat, x: nat, y: nat)
    requires x % 2 == 1 && y % 2 == 1 && Pow(2, s) * x == Pow(2, t) * y
    ensures s == t && x == y
    decreases s + t
  {
    if s > 0 && t > 0 {
      Halve(Pow(2, s - 1), x, Pow(2, t - 1), y);
      OddPartUnique(s - 1, t - 1, x, y);
    } else if s > 0 {
      MulAssoc(2, Pow(2, s - 1), x);
    } else if t > 0 {
      MulAssoc(2, Pow(2, t - 1), y);
    }
  }

  lemma Halve(a: nat, x: nat, b: nat, y: nat)
    requires (2 * a) * x == (2 * b) * y
    ensures a * x == b * y
  {
    MulAssoc(2, a, x);
    MulAssoc(2, b, y);
  }

  lemma OddProduct(a: nat, b: nat)
    requires a % 2 == 1 && b % 2 == 1
    ensures a * b % 2 == 1
  {
    var i, j := a / 2, b / 2;
    assert a == 2 * i + 1 && b == 2 * j + 1;
    Distribute(b, 2 * i, 1);
    MulAssoc(2, i, b);
  }

  lemma {:induction false} FiveIsOdd(n: nat)
    ensures Pow(5, n) % 2 == 1
  {
    if n > 0 {
      FiveIsOdd(n - 1);
      FiveTimes(Pow(5, n - 1));
    }
  }

  lemma FiveTimes(p: nat)
    requires p % 2 == 1
    ensures 5 * p % 2 == 1
  {
    var q := p / 2;
    assert p == 2 * q + 1;
    OddIs(5 * p, 5 * q + 2);
  }

  /** No power of five lies between ten and twenty. */
  lemma NoFiveBetween(n: nat)
    ensures !(10 <= Pow(5, n) < 20)
  {
    if n >= 2 {
      PowMono(5, 2, n);
      assert Pow(5, 2) == 25;
    }
  }

  /** 10^a 2^c against o 2^b 10^d, for an odd o: the powers of five are left. */
  lemma FivesLeft(o: nat, a: nat, c: nat, b: nat, d: nat)
    requires o % 2 == 1 && Pow(10, a) * Pow(2, c) == o * Pow(2, b) * Pow(10, d)
    ensures Pow(5, a) == o * Pow(5, d)
  {
    hide *;
    TwosAndFives(a, c);
    TwosAndFives(d, b);
    FiveIsOdd(a);
    FiveIsOdd(d);
    OddProduct(o, Pow(5, d));
    Regroup(o, Pow(2, b), Pow(10, d), Pow(2, d + b), Pow(5, d));
    OddPartUnique(a + c, d + b, Pow(5, a), o * Pow(5, d));
  }

  /** They cannot match when o is between ten and twenty. */
  lemma NoOddMultiple(o: nat, a: nat, d: nat)
    requires 10 <= o < 20 && (a == 0 || d == 0)
    ensures Pow(5, a) != o * Pow(5, d)
  {
    NoFiveBetween(a);
    hide Pow;
    MulMono(o, 1, Pow(5, d));
  }

  lemma TwosAndFives(a: nat, c: nat)
    ensures Pow(10, a) * Pow(2, c) == Pow(2, a + c) * Pow(5, a)
  {
    PowMulBase(2, 5, a);
    PowAdd(2, a, c);
    MulSwap(Pow(2, a), Pow(5, a), Pow(2, c), 1);
  }

  lemma Regroup(o: nat, p: nat, t: nat, q: nat, f: nat)
    requires t * p == q * f
    ensures o * p * t == q * (o * f)
  {
    MulAssoc(o, p, t);
    MulAssoc(q, o, f);
    MulAssoc(o, q, f);
  }

  /** The number and its upper gap together are an odd multiple of the gap. */
  lemma TieMeans(g: Gap, k: int, v: nat, be: int, he: int, spec: bool) returns (o: nat)
    requires Prepared(g.N, g.S, g.lo, g.hi, k, v, be, he, spec) && be > he && TiesAtTen(g)
    ensures o % 2 == 1 && 10 <= o < 20 && 10.0 * RPow(10, k) == o as real * RPow(2, he)
  {
    hide *;
    var d: nat := be - he;
    o := v * Pow(2, d) + 1;
    PreparedParts(g, k, v, be, he, spec);
    TieParts(g);
    RatioMeans(g.N, g.S, v, be, k);
    RatioMeans(g.hi, g.S, 1, he, k);
    RPowAdd(2, d, he);
    RPowWhole(2, d);
    EvenPower(v, d);
    TieAlgebra(g.N, g.S, g.hi, v, Pow(2, d), RPow(10, k), RPow(2, be), RPow(2, he));
  }

  lemma PreparedParts(g: Gap, k: int, v: nat, be: int, he: int, spec: bool)
    requires Prepared(g.N, g.S, g.lo, g.hi, k, v, be, he, spec)
    ensures g.S > 0 && g.lo <= g.hi && Ratio(g.N, g.S, v, be, k) && Ratio(g.hi, g.S, 1, he, k)
  {
    hide Ratio;
  }

  lemma TieParts(g: Gap)
    requires g.S > 0 && g.lo <= g.hi && TiesAtTen(g)
    ensures g.N + g.hi == 10 * g.S && g.hi <= g.S < 2 * g.hi
  {
    assert Pow(10, 0) == 1;
    QuotientOf(g.N, g.S);
  }

  lemma QuotientOf(n: nat, S: nat)
    requires S > 0
    ensures n == S * (n / S) + n % S
  {
  }

  lemma EvenPower(v: nat, d: nat)
    requires d > 0
    ensures (v * Pow(2, d) + 1) % 2 == 1
  {
    MulAssoc(v, 2, Pow(2, d - 1));
    MulAssoc(2, v, Pow(2, d - 1));
    Doubled(v * Pow(2, d - 1));
  }

  lemma Doubled(x: nat)
    ensures (2 * x + 1) % 2 == 1
  {
  }

  lemma TieAlgebra(N: nat, S: nat, hi: nat, v: nat, p: nat, K: real, P: real, H: real)
    requires S > 0 && K > 0.0 && H > 0.0 && N + hi == 10 * S && hi <= S < 2 * hi
    requires (N as real) * K == (S as real) * (v as real * P) && (hi as real) * K == (S as real) * (1 as real * H)
    requires P == p as real * H
    ensures 10.0 * K == (v * p + 1) as real * H && 10 <= v * p + 1 < 20
  {
    var s, o := S as real, v * p + 1;
    assert o as real * H == v as real * P + H by {
      RealMul(v, p);
      RAssoc(v as real, p as real, H);
      RDistribute((v * p) as real, 1.0, H);
    }
    assert 10.0 * K == o as real * H by {
      RDistribute(N as real, hi as real, K);
      RDistribute(v as real * P, H, s);
      assert (N as real) + (hi as real) == 10.0 * s;
      assert (10.0 * s) * K == s * (10.0 * K);
      RCancel(10.0 * K, o as real * H, s);
    }
    TieOrder(hi as real, s, K, H);
    TieRange(o, K, H);
  }

  lemma TieOrder(h: real, s: real, K: real, H: real)
    requires s > 0.0 && K > 0.0 && h * K == s * H && h <= s < 2.0 * h
    ensures H <= K < 2.0 * H
  {
    RCancel(h, s, K);
    RCancel(H, K, s);
    RCancel(s, 2.0 * h, K);
    assert (2.0 * h) * K == (2.0 * H) * s;
    RCancel(K, 2.0 * H, s);
  }

  lemma TieRange(o: nat, K: real, H: real)
    requires H > 0.0 && H <= K < 2.0 * H && 10.0 * K == o as real * H
    ensures 10 <= o < 20
  {
    RCancel(10.0, o as real, H);
    RCancel(o as real, 20.0, H);
  }

  /** A number of the set-up never ties at ten. */
  lemma NoTieAtTen(g: Gap, k: int, v: nat, be: int, he: int, spec: bool)
    requires Prepared(g.N, g.S, g.lo, g.hi, k, v, be, he, spec) && be > he
    ensures !TiesAtTen(g)
  {
    hide *;
    PreparedParts(g, k, v, be, he, spec);
    if TiesAtTen(g) {
      var o := TieMeans(g, k, v, be, he, spec);
      var m := k + 1;
      RPowAdd(10, k, 1);
      TenOnce();
      PowRatio(10, m);
      PowRatio(2, he);
      CrossPowers(o, RPow(10, m), RPow(2, he), Pow(10, Plus(m)), Pow(10, Plus(-m)), Pow(2, Plus(he)),
        Pow(2, Plus(-he)));
      OnePlus(m);
      FivesLeft(o, Plus(m), Plus(-he), Plus(he), Plus(-m));
      NoOddMultiple(o, Plus(m), Plus(-m));
    }
  }

  /** Nor is it an odd multiple of its gap: it has more twos than the gap. */
  lemma NoOddGaps(g: Gap, k: int, v: nat, be: int, he: int, spec: bool)
    requires Prepared(g.N, g.S, g.lo, g.hi, k, v, be, he, spec) && be > he && g.hi > 0
    ensures !OddGaps(g)
  {
    hide *;
    var d: nat := be - he;
    PreparedParts(g, k, v, be, he, spec);
    RatioMeans(g.N, g.S, v, be, k);
    RatioMeans(g.hi, g.S, 1, he, k);
    RPowAdd(2, d, he);
    RPowWhole(2, d);
    MultipleOfGap(g.N, g.S, g.hi, v, Pow(2, d), RPow(10, k), RPow(2, be), RPow(2, he));
    EvenPower(v, d);
    EvenGaps(g, v * Pow(2, d));
  }

  lemma MultipleOfGap(N: nat, S: nat, hi: nat, v: nat, p: nat, K: real, P: real, H: real)
    requires S > 0 && K > 0.0
    requires (N as real) * K == (S as real) * (v as real * P) && (hi as real) * K == (S as real) * (1 as real * H)
    requires P == p as real * H
    ensures N == v * p * hi
  {
    RealMul(v, p);
    RealMul(v * p, hi);
    MultipleReals(N as real, S as real, hi as real, v as real, p as real, K, H);
  }

  lemma MultipleReals(N: real, S: real, hi: real, v: real, p: real, K: real, H: real)
    requires K > 0.0 && N * K == S * (v * (p * H)) && hi * K == S * H
    ensures N == (v * p) * hi
  {
    RAssoc(v, p, H);
    RAssoc(S, v * p, H);
    RAssoc(v * p, S, H);
    RAssoc(v * p, hi, K);
    assert S * (v * p) == (v * p) * S;
    RCancel(N, (v * p) * hi, K);
  }

  lemma EvenGaps(g: Gap, q: nat)
    requires g.hi > 0 && g.N == q * g.hi && (q + 1) % 2 == 1
    ensures !OddGaps(g)
  {
    QuotientIs(g.N, g.hi, q, 0);
  }

  /** So the set-up prepares a gap that the loop can work with. */
  lemma IsBinary(g: Gap, k: int, v: nat, be: int, he: int, spec: bool)
    requires Prepared(g.N, g.S, g.lo, g.hi, k, v, be, he, spec) && be > he && g.Valid()
    ensures Binary(g)
  {
    hide Prepared, TiesAtTen, OddGaps;
    NoTieAtTen(g, k, v, be, he, spec);
    NoOddGaps(g, k, v, be, he, spec);
  }

  lemma TenOnce()
    ensures RPow(10, 1) == 10.0
  {
  }

  lemma OnePlus(m: int)
    ensures Plus(m) == 0 || Plus(-m) == 0
  {
  }

  lemma CrossPowers(o: nat, t: real, h: real, p: nat, p': nat, q: nat, q': nat)
    requires t == o as real * h && IsRatio(t, p, p') && IsRatio(h, q, q')
    ensures p * q' == o * q * p'
  {
    var x, y := p' as real, q' as real;
    RealMul(p, q');
    RealMul(o, q);
    RealMul(o * q, p');
    assert (p as real) * y == (t * x) * y;
    assert (o * q) as real * x == (o as real * (h * y)) * x;
    CrossAlgebra(o as real, h, x, y);
  }

  lemma CrossAlgebra(o: real, h: real, x: real, y: real)
    ensures ((o * h) * x) * y == (o * (h * y)) * x
  {
    RAssoc(o, h, y);
    RAssoc(o * h, x, y);
    RAssoc(o * h, y, x);
    assert x * y == y * x;
  }
}
