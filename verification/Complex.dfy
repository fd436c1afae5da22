/** Complex numbers, and pairs of reals in an array read as complex numbers. */
module Complex {
  import opened Words

  datatype C = C(re: real, im: real)

  const ZERO := C(0.0, 0.0)
  const ONE := C(1.0, 0.0)
  const I := C(0.0, 1.0)

  function Add(a: C, b: C): C
  {
    C(a.re + b.re, a.im + b.im)
  }

  function Sub(a: C, b: C): C
  {
    C(a.re - b.re, a.im - b.im)
  }

  function Mul(a: C, b: C): C
  {
    C(a.re * b.re - a.im * b.im, a.re * b.im + a.im * b.re)
  }

  function Conj(a: C): C
  {
    C(a.re, -a.im)
  }

  /** The square of the modulus. */
  function Norm(a: C): real
  {
    a.re * a.re + a.im * a.im
  }

  /** The entries of an array that holds real and imaginary parts alternately. */
  function Entries(a: array<real>, n: nat): (s: seq<C>)
    requires n <= a.Length
    reads a
    ensures |s| == n / 2
  {
    seq(n / 2, i requires 0 <= i < n / 2 && n <= a.Length reads a => C(a[2 * i], a[2 * i + 1]))
  }

  function Conjugates(s: seq<C>): (r: seq<C>)
    ensures |r| == |s|
  {
    seq(|s|, i requires 0 <= i < |s| => Conj(s[i]))
  }

  lemma MulComm(a: C, b: C)
    ensures Mul(a, b) == Mul(b, a)
  {
  }

  lemma Triple(a: real, b: real, c: real)
    ensures a * (b * c) == (a * b) * c
  {
  }

  lemma RealDistribute(a: real, b: real, c: real)
    ensures a * (b + c) == a * b + a * c && (b + c) * a == b * a + c * a
    ensures a * (b - c) == a * b - a * c && (b - c) * a == b * a - c * a
  {
  }

  lemma CMulAssoc(a: C, b: C, c: C)
    ensures Mul(a, Mul(b, c)) == Mul(Mul(a, b), c)
  {
    ThreeFactors(a.re, b.re, c.re, b.im, c.im);
    ThreeFactors(a.im, b.re, c.im, b.im, c.re);
    ThreeFactors(a.re, b.re, c.im, b.im, c.re);
    ThreeFactors(a.im, b.re, c.re, b.im, c.im);
    TwoAndOne(c.re, a.re, b.re, a.im, b.im);
    TwoAndOne(c.im, a.re, b.im, a.im, b.re);
    TwoAndOne(c.im, a.re, b.re, a.im, b.im);
    TwoAndOne(c.re, a.re, b.im, a.im, b.re);
  }

  lemma ThreeFactors(a: real, p: real, q: real, r: real, s: real)
    ensures a * (p * q - r * s) == a * p * q - a * r * s && a * (p * q + r * s) == a * p * q + a * r * s
  {
    RealDistribute(a, p * q, r * s);
    Triple(a, p, q);
    Triple(a, r, s);
  }

  lemma TwoAndOne(a: real, p: real, q: real, r: real, s: real)
    ensures (p * q - r * s) * a == p * q * a - r * s * a && (p * q + r * s) * a == p * q * a + r * s * a
  {
    RealDistribute(a, p * q, r * s);
  }

  lemma CDistribute(a: C, b: C, c: C)
    ensures Mul(a, Add(b, c)) == Add(Mul(a, b), Mul(a, c))
    ensures Mul(a, Sub(b, c)) == Sub(Mul(a, b), Mul(a, c))
    ensures Mul(Add(b, c), a) == Add(Mul(b, a), Mul(c, a))
    ensures Mul(Sub(b, c), a) == Sub(Mul(b, a), Mul(c, a))
  {
    hide *;
    DistributeLeft(a, b, c);
    MulComm(a, b);
    MulComm(a, c);
    MulComm(a, Add(b, c));
    MulComm(a, Sub(b, c));
  }

  lemma DistributeLeft(a: C, b: C, c: C)
    ensures Mul(a, Add(b, c)) == Add(Mul(a, b), Mul(a, c))
    ensures Mul(a, Sub(b, c)) == Sub(Mul(a, b), Mul(a, c))
  {
    RealDistribute(a.re, b.re, c.re);
    RealDistribute(a.im, b.im, c.im);
    RealDistribute(a.re, b.im, c.im);
    RealDistribute(a.im, b.re, c.re);
  }

  lemma CMulSwap(a: C, b: C, c: C, d: C)
    ensures Mul(Mul(a, b), Mul(c, d)) == Mul(Mul(a, c), Mul(b, d))
  {
    hide Mul;
    CMulAssoc(Mul(a, b), c, d);
    CMulAssoc(a, b, c);
    MulComm(b, c);
    CMulAssoc(a, c, b);
    CMulAssoc(Mul(a, c), b, d);
  }

  lemma ConjMul(a: C, b: C)
    ensures Conj(Mul(a, b)) == Mul(Conj(a), Conj(b))
  {
  }

  lemma MulConj(a: C)
    ensures Mul(a, Conj(a)) == C(Norm(a), 0.0)
  {
  }

  lemma NormMul(a: C, b: C)
    ensures Norm(Mul(a, b)) == Norm(a) * Norm(b)
  {
    CMulSwap(a, b, Conj(a), Conj(b));
    ConjMul(a, b);
    MulConj(a);
    MulConj(b);
    MulConj(Mul(a, b));
  }

  lemma MulOne(a: C)
    ensures Mul(ONE, a) == a && Mul(a, ONE) == a
    ensures Mul(C(-1.0, 0.0), a) == Sub(ZERO, a)
    ensures Mul(ZERO, a) == ZERO && Mul(a, ZERO) == ZERO && Add(ZERO, a) == a && Add(a, ZERO) == a
  {
  }

  lemma TimesI(x: real, y: real)
    ensures Mul(I, C(x, y)) == C(-y, x)
  {
  }

  lemma SquareOfI()
    ensures Mul(I, I) == C(-1.0, 0.0) && Mul(C(-1.0, 0.0), C(-1.0, 0.0)) == ONE
  {
    hide Mul;
    TimesI(0.0, 1.0);
    MulOne(C(-1.0, 0.0));
  }

  function Power(z: C, n: nat): C
  {
    if n == 0 then ONE else Mul(z, Power(z, n - 1))
  }

  lemma {:induction false} PowerAdd(z: C, m: nat, n: nat)
    ensures Power(z, m + n) == Mul(Power(z, m), Power(z, n))
  {
    hide Mul;
    if m == 0 {
      MulOne(Power(z, n));
    } else {
      PowerAdd(z, m - 1, n);
      CMulAssoc(z, Power(z, m - 1), Power(z, n));
    }
  }

  lemma {:induction false} PowerPower(z: C, m: nat, n: nat)
    ensures Power(Power(z, m), n) == Power(z, m * n)
  {
    hide Mul;
    if n > 0 {
      PowerPower(z, m, n - 1);
      assert m * n == m + m * (n - 1);
      PowerAdd(z, m, m * (n - 1));
    }
  }

  lemma {:induction false} PowerMul(y: C, z: C, n: nat)
    ensures Power(Mul(y, z), n) == Mul(Power(y, n), Power(z, n))
  {
    hide Mul;
    if n == 0 {
      MulOne(ONE);
    } else {
      PowerMul(y, z, n - 1);
      CMulSwap(y, z, Power(y, n - 1), Power(z, n - 1));
    }
  }

  lemma {:induction false} PowerOne(n: nat)
    ensures Power(ONE, n) == ONE
  {
    hide Mul;
    if n > 0 {
      PowerOne(n - 1);
      MulOne(Power(ONE, n - 1));
    }
  }

  lemma PowerFirst(z: C)
    ensures Power(z, 1) == z && Power(z, 0) == ONE
  {
    MulOne(z);
  }

  lemma {:induction false} NormPower(z: C, n: nat)
    requires Norm(z) == 1.0
    ensures Norm(Power(z, n)) == 1.0
  {
    if n > 0 {
      NormPower(z, n - 1);
      NormMul(z, Power(z, n - 1));
    }
  }

  lemma {:induction false} ConjPower(z: C, n: nat)
    ensures Conj(Power(z, n)) == Power(Conj(z), n)
  {
    if n > 0 {
      ConjPower(z, n - 1);
      ConjMul(z, Power(z, n - 1));
    }
  }
}
