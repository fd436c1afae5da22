/** What ddct and ddst compute: the documented sums of cosines and of sines, both ways. */
module CosineSums {
  import opened Words
  import opened Complex
  import opened Dft
  import opened FourierLaws
  import Butterflies
  import opened RealFft
  import opened Cft
  import opened Cdft
  import opened Rdft
  import opened Ddct
  import opened CosineTables
  import opened RealTransforms
  import opened RealAlgebra

  /** The first n terms of the sum of a[j] b[j]. */
  function Dot(a: seq<real>, b: seq<real>, n: nat): real
    requires n <= |a| && n <= |b|
  {
    if n == 0 then 0.0 else Dot(a, b, n - 1) + Product(a[n - 1], b[n - 1])
  }

  // ----- the documented sums -----

  /** The cosine or the sine of e times the angle of psi. */
  function Trig(sine: bool, psi: C, e: nat): real
  {
    if sine then Power(psi, e).im else Power(psi, e).re
  }

  /** Which frequency stands at place k: the sine transform keeps number n at place 0. */
  function Frequency(sine: bool, n: nat, k: nat): nat
  {
    if sine && k == 0 then n else k
  }

  /** cos or sin of pi k (l + 1/2) / n, psi being the turn by pi / (2 n). */
  function TrigAt(sine: bool, psi: C, n: nat, k: nat, l: nat): real
  {
    Trig(sine, psi, Frequency(sine, n, k) * (2 * l + 1))
  }

  function TrigColumn(sine: bool, psi: C, n: nat, l: nat): (t: seq<real>)
    ensures |t| == n
  {
    seq(n, k requires 0 <= k < n => TrigAt(sine, psi, n, k, l))
  }

  function TrigRow(sine: bool, psi: C, n: nat, k: nat): (t: seq<real>)
    ensures |t| == n
  {
    seq(n, l requires 0 <= l < n => TrigAt(sine, psi, n, k, l))
  }

  // ----- what the transform of reals and the mixing of neighbours make of them -----

  /** The share of a complex entry in the two mixed numbers it gives. */
  function Lobe(sine: bool, odd: bool, z: C): real
  {
    if sine then (if odd then -z.re - z.im else z.re - z.im) else if odd then z.re - z.im else z.re + z.im
  }

  function LobeAt(sine: bool, theta: C, k: nat, l: nat): real
  {
    Lobe(sine, l % 2 == 1, Power(theta, k * ((l + 1) / 2)))
  }

  function LobeColumn(sine: bool, theta: C, n: nat, l: nat): (t: seq<real>)
    ensures |t| == n
  {
    seq(n, k requires 0 <= k < n => LobeAt(sine, theta, k, l))
  }

  function LobeRow(sine: bool, theta: C, n: nat, k: nat): (t: seq<real>)
    ensures |t| == n
  {
    seq(n, l requires 0 <= l < n => LobeAt(sine, theta, k, l))
  }

  function Part(sine: bool, z: C): real
  {
    if sine then z.im else z.re
  }

  /** The factor of an odd or even place. */
  function Sided(odd: bool, p: C): C
  {
    if odd then Conj(p) else p
  }

  // ----- turning the lobes -----

  /** One turn, from lobes to cosines or sines. */
  lemma TurnLobes(sine: bool, odd: bool, p: C, z: C)
    ensures First(sine, p.re / 2.0, p.im / 2.0, Lobe(sine, odd, z), Lobe(sine, odd, Conj(z))) ==
      Part(sine, Mul(Sided(odd, p), z))
    ensures Second(sine, p.re / 2.0, p.im / 2.0, Lobe(sine, odd, z), Lobe(sine, odd, Conj(z))) ==
            Part(sine, Mul(Sided(odd, C(p.im, p.re)), Conj(z)))
  {
    var c, s, x, y := p.re, p.im, z.re, z.im;
    var d, t := c / 2.0 - s / 2.0, c / 2.0 + s / 2.0;
    Spreads(d, x, y);
    Spreads(t, x, y);
    assert d * x == (c * x) / 2.0 - (s * x) / 2.0 && d * y == (c * y) / 2.0 - (s * y) / 2.0 by {
      HalfDifference(c, s, x);
      HalfDifference(c, s, y);
    }
    assert t * x == (c * x) / 2.0 + (s * x) / 2.0 && t * y == (c * y) / 2.0 + (s * y) / 2.0 by {
      HalfDifference(c, s, x);
      HalfDifference(c, s, y);
    }
    assert s * -y == -(s * y) && c * -y == -(c * y) && -s * x == -(s * x) && -c * x == -(c * x);
  }

  lemma HalfDifference(c: real, s: real, x: real)
    ensures (c / 2.0 - s / 2.0) * x == (c * x) / 2.0 - (s * x) / 2.0
    ensures (c / 2.0 + s / 2.0) * x == (c * x) / 2.0 + (s * x) / 2.0
  {
    RealDistribute(x, c / 2.0, s / 2.0);
  }

  lemma Spreads(d: real, x: real, y: real)
    ensures d * (x + y) == d * x + d * y && d * (x - y) == d * x - d * y && d * (-x - y) == -(d * x) - d * y
  {
    RealDistribute(d, x, y);
    RealDistribute(d, -x, y);
  }

  /** The table has half the cosines and half the sines of the powers of psi, a quarter turn being n of them. */
  ghost predicate Setting(c: seq<real>, ks: nat, n: nat, psi: C)
  {
    Fine(c, ks, n) && |c| > 0 && Norm(psi) == 1.0 && Power(psi, n) == I && c[0] == Power(psi, n / 2).re &&
    forall j: nat :: 0 < j < n / 2 ==>
      0 < j * ks < |c| && c[j * ks] == Power(psi, j).re / 2.0 && c[|c| - j * ks] == Power(psi, j).im / 2.0
  }

  lemma ConjCancels(p: C, q: C)
    requires Norm(p) == 1.0
    ensures Mul(Conj(p), Mul(p, q)) == q
  {
    hide *;
    CMulAssoc(Conj(p), p, q);
    MulComm(Conj(p), p);
    MulConj(p);
    OneIs(Norm(p));
    MulOne(q);
  }

  lemma OneIs(x: real)
    ensures x == 1.0 ==> C(x, 0.0) == ONE
  {
  }

  lemma HalfPlace(k: nat, l: nat)
    ensures var m := (l + 1) / 2;
      if l % 2 == 1 then k * (2 * l + 1) + k == 4 * (k * m) else k * (2 * l + 1) == k + 4 * (k * m)
  {
    var m := (l + 1) / 2;
    if l % 2 == 1 {
      assert 2 * l + 1 == 4 * m - 1;
      Distribute(k, 4 * m, -1);
    } else {
      assert 2 * l + 1 == 4 * m + 1;
      Distribute(k, 4 * m, 1);
    }
    MulAssoc(4, k, m);
    MulAssoc(4, m, k);
  }

  /** The turn at (k, l), from those of k and of theta. */
  lemma TurnAt(psi: C, k: nat, l: nat)
    requires Norm(psi) == 1.0
    ensures Power(psi, k * (2 * l + 1)) ==
      Mul(Sided(l % 2 == 1, Power(psi, k)), Power(Power(psi, 4), k * ((l + 1) / 2)))
  {
    hide Power, Mul, Norm, Conj;
    var m, e := (l + 1) / 2, k * (2 * l + 1);
    HalfPlace(k, l);
    PowerPower(psi, 4, k * m);
    if l % 2 == 1 {
      PowerAdd(psi, k, e);
      NormPower(psi, k);
      ConjCancels(Power(psi, k), Power(psi, e));
    } else {
      PowerAdd(psi, k, 4 * (k * m));
    }
  }

  lemma FullTurn(psi: C, n: nat)
    requires Norm(psi) == 1.0 && Power(psi, n) == I
    ensures Norm(Power(psi, 4)) == 1.0 && Power(Power(psi, 4), n) == ONE
  {
    hide *;
    NormPower(psi, 4);
    PowerPower(psi, 4, n);
    PowerPower(psi, n, 4);
    Swapped(4, n);
    FourQuarters();
  }

  lemma FourQuarters()
    ensures Power(I, 4) == ONE && Power(I, 2) == C(-1.0, 0.0)
  {
    hide *;
    SquareIs(I);
    PowerAdd(I, 2, 2);
    SquareOfI();
  }

  /** Half the places on, theta turns by one or minus one. */
  lemma HalfTurns(psi: C, n: nat, m: nat)
    requires Norm(psi) == 1.0 && Power(psi, n) == I && n % 2 == 0
    ensures Power(Power(psi, 4), (n / 2) * m).im == 0.0
  {
    hide *;
    PowerPower(psi, 4, (n / 2) * m);
    FourHalves(n, m);
    PowerPower(psi, n, 2 * m);
    PowerPower(I, 2, m);
    FourQuarters();
    MinusOnes(m);
  }

  lemma FourHalves(n: nat, m: nat)
    requires n % 2 == 0
    ensures 4 * ((n / 2) * m) == n * (2 * m)
  {
    var h := n / 2;
    assert n == 2 * h;
    MulAssoc(4, h, m);
    MulAssoc(2 * h, 2, m);
  }

  lemma {:induction false} MinusOnes(m: nat)
    ensures Power(C(-1.0, 0.0), m).im == 0.0
  {
    if m > 0 {
      MinusOnes(m - 1);
    }
  }

  lemma ThetaMirror(theta: C, n: nat, k: nat, m: nat)
    requires Norm(theta) == 1.0 && Power(theta, n) == ONE && k <= n
    ensures Power(theta, (n - k) * m) == Conj(Power(theta, k * m))
  {
    hide *;
    MirrorParts(n, k, m);
    PowersUndo(theta, n, m, (n - k) * m, k * m);
  }

  lemma MirrorParts(n: nat, k: nat, m: nat)
    requires k <= n
    ensures (n - k) * m + k * m == n * m
  {
    Distribute(m, n - k, k);
  }

  lemma PowersUndo(theta: C, n: nat, m: nat, a: nat, b: nat)
    requires Norm(theta) == 1.0 && Power(theta, n) == ONE && a + b == n * m
    ensures Power(theta, a) == Conj(Power(theta, b))
  {
    hide *;
    PowerAdd(theta, b, a);
    PowerPower(theta, n, m);
    PowerOne(m);
    NormPower(theta, b);
    ConjCancels(Power(theta, b), Power(theta, a));
    MulOne(Conj(Power(theta, b)));
  }

  lemma LobeIs(sine: bool, theta: C, n: nat, k: nat, l: nat, z: C)
    requires z == Power(theta, k * ((l + 1) / 2)) && k < n
    ensures LobeColumn(sine, theta, n, l)[k] == LobeAt(sine, theta, k, l) == Lobe(sine, l % 2 == 1, z)
  {
    hide Power, Lobe;
  }

  lemma TrigIs(sine: bool, psi: C, n: nat, k: nat, l: nat, u: C)
    requires k > 0 && Power(psi, k * (2 * l + 1)) == u
    ensures TrigAt(sine, psi, n, k, l) == Part(sine, u)
  {
    hide Power;
  }

  lemma SettingAt(c: seq<real>, ks: nat, n: nat, psi: C, j: nat)
    requires Setting(c, ks, n, psi) && 0 < j < n / 2
    ensures 0 < j * ks < |c| && c[j * ks] == Power(psi, j).re / 2.0 && c[|c| - j * ks] == Power(psi, j).im / 2.0
  {
    hide Power, Norm, Fine;
  }

  /** The two turned lobes at places j and n - j. */
  lemma PairValues(sine: bool, psi: C, n: nat, j: nat, l: nat)
    requires Norm(psi) == 1.0 && Power(psi, n) == I && 0 < j < n
    ensures var p, x := Power(psi, j), LobeColumn(sine, Power(psi, 4), n, l);
      First(sine, p.re / 2.0, p.im / 2.0, x[j], x[n - j]) == TrigAt(sine, psi, n, j, l) &&
      Second(sine, p.re / 2.0, p.im / 2.0, x[j], x[n - j]) == TrigAt(sine, psi, n, n - j, l)
  {
    hide *;
    var theta, m, odd, p := Power(psi, 4), (l + 1) / 2, l % 2 == 1, Power(psi, j);
    var z := Power(theta, j * m);
    FullTurn(psi, n);
    ThetaMirror(theta, n, j, m);
    LobeIs(sine, theta, n, j, l, z);
    LobeIs(sine, theta, n, n - j, l, Conj(z));
    TurnLobes(sine, odd, p, z);
    TurnAt(psi, j, l);
    TurnAt(psi, n - j, l);
    Mirrored(psi, j, n, p);
    TrigIs(sine, psi, n, j, l, Mul(Sided(odd, p), z));
    TrigIs(sine, psi, n, n - j, l, Mul(Sided(odd, C(p.im, p.re)), Conj(z)));
  }

  /** The lobes of a column, turned, are its cosines or sines. */
  lemma ColumnPair(sine: bool, c: seq<real>, ks: nat, n: nat, psi: C, l: nat, j: nat)
    requires Setting(c, ks, n, psi) && Fine(c, ks, n) && 0 < j < n / 2
    ensures var t := Ddct.Turned(sine, c, ks, LobeColumn(sine, Power(psi, 4), n, l));
      t[j] == TrigAt(sine, psi, n, j, l) && t[n - j] == TrigAt(sine, psi, n, n - j, l)
  {
    hide *;
    SettingIs(c, ks, n, psi);
    SettingAt(c, ks, n, psi, j);
    TurnedPair(sine, c, ks, LobeColumn(sine, Power(psi, 4), n, l), j);
    PairValues(sine, psi, n, j, l);
  }

  lemma ColumnFirst(sine: bool, c: seq<real>, ks: nat, n: nat, psi: C, l: nat)
    requires Setting(c, ks, n, psi) && Fine(c, ks, n)
    ensures Ddct.Turned(sine, c, ks, LobeColumn(sine, Power(psi, 4), n, l))[0] == TrigAt(sine, psi, n, 0, l)
  {
    hide *;
    var theta, odd := Power(psi, 4), l % 2 == 1;
    SettingIs(c, ks, n, psi);
    TurnedFixed(sine, c, ks, LobeColumn(sine, theta, n, l), n / 2);
    NoTurn(theta, l);
    LobeIs(sine, theta, n, 0, l, ONE);
    FirstTrig(sine, psi, n, l);
  }

  lemma NoTurn(theta: C, l: nat)
    ensures Power(theta, 0 * ((l + 1) / 2)) == ONE
  {
    assert 0 * ((l + 1) / 2) == 0;
  }

  lemma FirstTrig(sine: bool, psi: C, n: nat, l: nat)
    requires Norm(psi) == 1.0 && Power(psi, n) == I && n > 0
    ensures TrigAt(sine, psi, n, 0, l) == Lobe(sine, l % 2 == 1, ONE)
  {
    hide *;
    FullTurn(psi, n);
    TurnAt(psi, n, l);
    PowerPower(Power(psi, 4), n, (l + 1) / 2);
    PowerOne((l + 1) / 2);
    MulOne(Sided(l % 2 == 1, I));
    FirstFrequency(sine, psi, n, l);
    FirstLobe(sine, l % 2 == 1);
  }

  lemma FirstFrequency(sine: bool, psi: C, n: nat, l: nat)
    ensures TrigAt(sine, psi, n, 0, l) == if sine then Power(psi, n * (2 * l + 1)).im else 1.0
  {
    assert 0 * (2 * l + 1) == 0;
  }

  lemma FirstLobe(sine: bool, odd: bool)
    ensures Lobe(sine, odd, ONE) == if sine then Sided(odd, I).im else 1.0
  {
  }

  lemma ColumnMiddle(sine: bool, c: seq<real>, ks: nat, n: nat, psi: C, l: nat)
    requires Setting(c, ks, n, psi) && Fine(c, ks, n)
    ensures Ddct.Turned(sine, c, ks, LobeColumn(sine, Power(psi, 4), n, l))[n / 2] == TrigAt(sine, psi, n, n / 2, l)
  {
    hide *;
    var theta, m, odd, h := Power(psi, 4), (l + 1) / 2, l % 2 == 1, n / 2;
    var p, z := Power(psi, h), Power(theta, h * m);
    SettingIs(c, ks, n, psi);
    TurnedFixed(sine, c, ks, LobeColumn(sine, theta, n, l), h);
    MiddleIs(psi, h);
    HalfTurns(psi, n, m);
    TurnAt(psi, h, l);
    LobeIs(sine, theta, n, h, l, z);
    MiddleLobe(sine, odd, p, z);
    TrigIs(sine, psi, n, h, l, Mul(Sided(odd, p), z));
  }

  lemma MiddleLobe(sine: bool, odd: bool, p: C, z: C)
    requires p.re == p.im && z.im == 0.0
    ensures Product(Lobe(sine, odd, z), p.re) == Part(sine, Mul(Sided(odd, p), z))
  {
    RealFactor(p, z);
    RealFactor(Conj(p), z);
    Signs(p.re, z.re);
    hide Mul, Product;
  }

  lemma RealFactor(p: C, z: C)
    requires z.im == 0.0
    ensures Mul(p, z) == C(p.re * z.re, p.im * z.re)
  {
  }

  lemma Signs(r: real, x: real)
    ensures Product(x, r) == r * x && Product(x - 0.0, r) == r * x && Product(x + 0.0, r) == r * x
    ensures Product(-x - 0.0, r) == -r * x
  {
  }

  lemma ColumnTurned(sine: bool, c: seq<real>, ks: nat, n: nat, psi: C, l: nat)
    requires Setting(c, ks, n, psi)
    ensures Ddct.Turned(sine, c, ks, LobeColumn(sine, Power(psi, 4), n, l)) == TrigColumn(sine, psi, n, l)
  {
    assert n >= 2 && n % 2 == 0 && Fine(c, ks, n);
    var t := Ddct.Turned(sine, c, ks, LobeColumn(sine, Power(psi, 4), n, l));
    hide Setting, Ddct.Turned, LobeColumn, TrigAt, Fine, Power;
    forall k: nat | k < n ensures t[k] == TrigColumn(sine, psi, n, l)[k] {
      if k == 0 {
        ColumnFirst(sine, c, ks, n, psi, l);
      } else if 2 * k == n {
        ColumnMiddle(sine, c, ks, n, psi, l);
      } else {
        ColumnPair(sine, c, ks, n, psi, l, if 2 * k < n then k else n - k);
      }
    }
  }

  // ----- sums over pairs of places -----

  /** The terms of the places j and n - j, for 0 < j < h. */
  function PairDot(a: seq<real>, b: seq<real>, h: nat): real
    requires |a| == |b| && 2 * h <= |a| + 1
  {
    if h <= 1 then 0.0
    else
      PairDot(a, b, h - 1) + (Product(a[h - 1], b[h - 1]) + Product(a[|a| - (h - 1)], b[|a| - (h - 1)]))
  }

  lemma {:induction false} DotFromBothEnds(a: seq<real>, b: seq<real>, r: nat)
    requires |a| == |b| && 1 <= r && 2 * r <= |a|
    ensures var n := |a|;
      Dot(a, b, r) + (Dot(a, b, n) - Dot(a, b, n - r + 1)) == Product(a[0], b[0]) + PairDot(a, b, r)
  {
    hide Product;
    var n := |a|;
    if r == 1 {
      assert Dot(a, b, 1) == Dot(a, b, 0) + Product(a[0], b[0]);
    } else {
      DotFromBothEnds(a, b, r - 1);
      assert Dot(a, b, n - (r - 1) + 1) == Dot(a, b, n - r + 1) + Product(a[n - (r - 1)], b[n - (r - 1)]);
    }
  }

  lemma DotPaired(a: seq<real>, b: seq<real>, h: nat)
    requires |a| == |b| == 2 * h && h >= 1
    ensures Dot(a, b, 2 * h) == Product(a[0], b[0]) + Product(a[h], b[h]) + PairDot(a, b, h)
  {
    hide Product;
    DotFromBothEnds(a, b, h);
    assert Dot(a, b, h + 1) == Dot(a, b, h) + Product(a[h], b[h]);
  }

  /** The turn of a pair is the same from both sides. */
  lemma TurnSymmetric(sine: bool, w: real, v: real, p: real, q: real, x: real, y: real)
    ensures Product(First(sine, w, v, p, q), x) + Product(Second(sine, w, v, p, q), y) ==
            Product(p, First(sine, w, v, x, y)) + Product(q, Second(sine, w, v, x, y))
  {
    var d, s := w - v, w + v;
    SymmetricAlgebra(d, s, p, q, x, y);
    SymmetricAlgebra(d, s, q, p, x, y);
    SymmetricAlgebra(d, s, q, p, y, x);
    SymmetricAlgebra(d, s, p, q, y, x);
  }

  lemma SymmetricAlgebra(d: real, s: real, p: real, q: real, x: real, y: real)
    ensures (d * p + s * q) * x == p * (d * x) + q * (s * x) && (s * p - d * q) * x == p * (s * x) - q * (d * x)
    ensures p * (d * x + s * y) == p * (d * x) + p * (s * y) && p * (s * x - d * y) == p * (s * x) - p * (d * y)
  {
    RealDistribute(x, d * p, s * q);
    RealDistribute(x, s * p, d * q);
    RealDistribute(p, d * x, s * y);
    RealDistribute(p, s * x, d * y);
    assert (d * p) * x == p * (d * x) && (s * q) * x == q * (s * x) by {
      Around(d, p, x);
      Around(s, q, x);
    }
    assert (s * p) * x == p * (s * x) && (d * q) * x == q * (d * x) by {
      Around(s, p, x);
      Around(d, q, x);
    }
  }

  lemma Around(d: real, p: real, x: real)
    ensures (d * p) * x == p * (d * x)
  {
    Triple(p, d, x);
  }

  lemma {:induction false} PairDotTurned(sine: bool, c: seq<real>, ks: nat, a: seq<real>, b: seq<real>, h: nat)
    requires |a| == |b| && Fine(c, ks, |a|) && 2 * h <= |a|
    ensures PairDot(Ddct.Turned(sine, c, ks, a), b, h) == PairDot(a, Ddct.Turned(sine, c, ks, b), h)
  {
    hide Product, First, Second, Ddct.Turned, Fine;
    if h > 1 {
      PairDotTurned(sine, c, ks, a, b, h - 1);
      var j, n := h - 1, |a|;
      TurnedPair(sine, c, ks, a, j);
      TurnedPair(sine, c, ks, b, j);
      TurnSymmetric(sine, c[j * ks], c[|c| - j * ks], a[j], a[n - j], b[j], b[n - j]);
    }
  }

  /** dctsub and dstsub are symmetric. */
  lemma TurnedSymmetric(sine: bool, c: seq<real>, ks: nat, a: seq<real>, b: seq<real>)
    requires |a| == |b| && Fine(c, ks, |a|) && |c| > 0
    ensures Dot(Ddct.Turned(sine, c, ks, a), b, |a|) == Dot(a, Ddct.Turned(sine, c, ks, b), |a|)
  {
    var h, ta, tb := |a| / 2, Ddct.Turned(sine, c, ks, a), Ddct.Turned(sine, c, ks, b);
    assert 2 * h == |a| && h >= 1;
    TurnedFixed(sine, c, ks, a, h);
    TurnedFixed(sine, c, ks, b, h);
    MiddleProduct(a[h], c[0], b[h]);
    hide *;
    DotPaired(ta, b, h);
    DotPaired(a, tb, h);
    PairDotTurned(sine, c, ks, a, b, h);
  }

  lemma TurnedFixed(sine: bool, c: seq<real>, ks: nat, x: seq<real>, h: nat)
    requires Fine(c, ks, |x|) && |x| == 2 * h && |c| > 0
    ensures h >= 1
    ensures Ddct.Turned(sine, c, ks, x)[0] == x[0] && Ddct.Turned(sine, c, ks, x)[h] == Product(x[h], c[0])
  {
    hide Product;
  }

  lemma MiddleProduct(x: real, c: real, y: real)
    ensures Product(Product(x, c), y) == Product(x, Product(y, c))
  {
    Triple(x, c, y);
  }

  // ----- the forward transforms -----

  lemma {:induction false} LobeSum(sine: bool, x: seq<real>, theta: C, l: nat, n: nat)
    requires |x| % 2 == 0 && n <= |x|
    ensures Lobe(sine, l % 2 == 1, Sum(Reals(Pairs(x)), theta, (l + 1) / 2, n)) ==
      Dot(x, LobeColumn(sine, theta, |x|, l), n)
  {
    hide *;
    LobeOfSum(sine, Reals(Pairs(x)), theta, l, n);
    DotSteps(x, LobeColumn(sine, theta, |x|, l), n);
    if n > 0 {
      LobeSum(sine, x, theta, l, n - 1);
      RealsAt(x, n - 1);
      LobeOfTerm(sine, x[n - 1], theta, |x|, n - 1, l);
    }
  }

  lemma LobeOfSum(sine: bool, s: seq<C>, theta: C, l: nat, n: nat)
    requires n <= |s|
    ensures var odd, m := l % 2 == 1, (l + 1) / 2;
      Lobe(sine, odd, Sum(s, theta, m, n)) ==
      if n == 0 then 0.0
      else Lobe(sine, odd, Sum(s, theta, m, n - 1)) + Lobe(sine, odd, Mul(s[n - 1], Power(theta, (n - 1) * m)))
  {
    hide Power, Mul;
    if n > 0 {
      LobeAdds(sine, l % 2 == 1, Sum(s, theta, (l + 1) / 2, n - 1),
        Mul(s[n - 1], Power(theta, (n - 1) * ((l + 1) / 2))));
    }
  }

  lemma DotSteps(a: seq<real>, b: seq<real>, n: nat)
    requires n <= |a| && n <= |b|
    ensures Dot(a, b, n) == if n == 0 then 0.0 else Dot(a, b, n - 1) + Product(a[n - 1], b[n - 1])
  {
    hide Product;
  }

  lemma LobeOfTerm(sine: bool, r: real, theta: C, n: nat, k: nat, l: nat)
    requires k < n
    ensures Lobe(sine, l % 2 == 1, Mul(C(r, 0.0), Power(theta, k * ((l + 1) / 2)))) ==
            Product(r, LobeColumn(sine, theta, n, l)[k])
  {
    var z := Power(theta, k * ((l + 1) / 2));
    RealTimes(r, z);
    LobeScaled(sine, l % 2 == 1, r, z);
    hide Power, Mul, Product, Lobe;
  }

  lemma RealsAt(x: seq<real>, i: nat)
    requires |x| % 2 == 0 && i < |x|
    ensures Reals(Pairs(x))[i] == C(x[i], 0.0)
  {
    assert i == 2 * (i / 2) + i % 2;
  }

  lemma LobeScaled(sine: bool, odd: bool, r: real, z: C)
    ensures Lobe(sine, odd, C(r * z.re, r * z.im)) == Product(r, Lobe(sine, odd, z))
  {
    Spreads(r, z.re, z.im);
  }

  lemma LobeAdds(sine: bool, odd: bool, y: C, z: C)
    ensures Lobe(sine, odd, Add(y, z)) == Lobe(sine, odd, y) + Lobe(sine, odd, z)
  {
  }

  /** The mixing after the forward passes gives the lobes of the transform. */
  lemma GatherIsLobe(sine: bool, s: seq<C>, x: seq<C>, theta: C, l: nat)
    requires |s| == |x| > 0 && IsRealTransform(Packed(s), x, theta) && l < 2 * |s|
    ensures Gather(sine, Flat(s))[l] == Lobe(sine, l % 2 == 1, Transform(Reals(x), theta, (l + 1) / 2))
  {
    hide Transform, Reals;
    var m, y := (l + 1) / 2, Flat(s);
    assert Packed(s)[0] == C(s[0].re + s[0].im, s[0].re - s[0].im);
    if l == 0 || l == 2 * |s| - 1 {
      assert y[0] == s[0].re && y[1] == s[0].im;
      assert l > 0 ==> m == |s|;
    } else {
      assert Packed(s)[m] == s[m] && y[2 * m] == s[m].re && y[2 * m + 1] == s[m].im;
    }
  }

  /** ddct and ddst with isgn >= 0: entry l of the result. */
  lemma ForwardSum(sine: bool, n: nat, w: array<real>, nw: nat, nc: nat, K: nat, K0: nat, omega: C, theta: C,
                   ks: nat, psi: C, x: seq<real>, l: nat)
    requires RealTables(n, w, nw, nc, K, K0, omega, theta) && Setting(w[nw..nw + nc], ks, n, psi)
    requires theta == Power(psi, 4)
    requires |x| == n && l < n
    ensures var c := w[nw..nw + nc];
      Gather(sine, Flat(Spectrum(n, c, nc, K, theta, Pairs(Ddct.Turned(sine, c, ks, x)))))[l] ==
      Dot(x, TrigColumn(sine, psi, n, l), n)
  {
    hide *;
    TableSizes(n, w, nw, nc, K, K0, omega, theta);
    SettingIs(w[nw..nw + nc], ks, n, psi);
    var c := w[nw..nw + nc];
    var t := Ddct.Turned(sine, c, ks, x);
    var s := Spectrum(n, c, nc, K, theta, Pairs(t));
    ForwardTransforms(n, w, nw, nc, K, K0, omega, theta, Pairs(t));
    GatherIsLobe(sine, s, Pairs(t), theta, l);
    TransformIsSum(Reals(Pairs(t)), theta, (l + 1) / 2);
    LobeSum(sine, t, theta, l, n);
    TurnedSymmetric(sine, c, ks, x, LobeColumn(sine, theta, n, l));
    ColumnTurned(sine, c, ks, n, psi, l);
  }

  lemma SettingIs(c: seq<real>, ks: nat, n: nat, psi: C)
    requires Setting(c, ks, n, psi)
    ensures Fine(c, ks, n) && |c| > 0 && n >= 2 && n % 2 == 0 && n == 2 * (n / 2) && c[0] == Power(psi, n / 2).re
    ensures Norm(psi) == 1.0 && Power(psi, n) == I
  {
    hide Power, Norm;
  }

  // ----- the backward transforms -----

  /** The real parts of the terms that the inverse transform adds up for place k. */
  function Beats(X: seq<C>, theta: C, k: nat): (t: seq<real>)
    ensures |t| == |X|
  {
    seq(|X|, m requires 0 <= m < |X| => Mul(X[m], Power(Conj(theta), m * k)).re)
  }

  function Ones(n: nat): (t: seq<real>)
    ensures |t| == n
  {
    seq(n, i => 1.0)
  }

  lemma {:induction false} SumOfBeats(X: seq<C>, theta: C, k: nat, n: nat)
    requires n <= |X|
    ensures Sum(X, Conj(theta), k, n).re == Dot(Beats(X, theta, k), Ones(|X|), n)
  {
    hide Power, Mul;
    if n > 0 {
      SumOfBeats(X, theta, k, n - 1);
    }
  }

  /** Mirror images add the same. */
  lemma BeatMirror(x: seq<C>, theta: C, k: nat, m: nat)
    requires AllReal(x) && Norm(theta) == 1.0 && Power(theta, |x|) == ONE && 0 < m < |x|
    ensures var t := Beats(All(x, theta), theta, k); t[|x| - m] == t[m]
  {
    hide *;
    var n := |x|;
    BeatIs(x, theta, k, m);
    BeatIs(x, theta, k, n - m);
    RealSum(x, theta, n, m, n);
    TransformIsSum(x, theta, m);
    TransformIsSum(x, theta, n - m);
    ConjUnit(theta, n);
    ThetaMirror(Conj(theta), n, m, k);
    ConjugateTerms(Transform(x, theta, m), Power(Conj(theta), m * k));
  }

  lemma BeatIs(x: seq<C>, theta: C, k: nat, m: nat)
    requires m < |x|
    ensures Beats(All(x, theta), theta, k)[m] == Mul(Transform(x, theta, m), Power(Conj(theta), m * k)).re
  {
    hide Transform, Power, Mul;
  }

  lemma ConjUnit(theta: C, n: nat)
    requires Norm(theta) == 1.0 && Power(theta, n) == ONE
    ensures Norm(Conj(theta)) == 1.0 && Power(Conj(theta), n) == ONE
  {
    hide *;
    ConjPower(theta, n);
    ConjOne(Power(theta, n));
    NormConj(theta);
  }

  lemma NormConj(z: C)
    ensures Norm(Conj(z)) == Norm(z)
  {
    var y := z.im;
    assert -y * -y == y * y;
  }

  lemma ConjugateTerms(a: C, b: C)
    ensures Mul(Conj(a), Conj(b)).re == Mul(a, b).re
  {
  }

  /** The terms of neighbours 2m - 1 and 2m, for 0 < m < h. */
  function NeighbourDot(a: seq<real>, b: seq<real>, h: nat): real
    requires |a| == |b| && 2 * h <= |a|
  {
    if h <= 1 then 0.0
    else
      NeighbourDot(a, b, h - 1) +
      (Product(a[2 * (h - 1) - 1], b[2 * (h - 1) - 1]) + Product(a[2 * (h - 1)], b[2 * (h - 1)]))
  }

  lemma {:induction false} DotByNeighbours(a: seq<real>, b: seq<real>, h: nat)
    requires |a| == |b| && 1 <= h && 2 * h <= |a|
    ensures Dot(a, b, 2 * h - 1) == Product(a[0], b[0]) + NeighbourDot(a, b, h)
  {
    hide Product;
    if h == 1 {
      assert Dot(a, b, 1) == Dot(a, b, 0) + Product(a[0], b[0]);
    } else {
      DotByNeighbours(a, b, h - 1);
      var j := 2 * (h - 1);
      assert Dot(a, b, j + 1) == Dot(a, b, j) + Product(a[j], b[j]);
      assert Dot(a, b, j) == Dot(a, b, j - 1) + Product(a[j - 1], b[j - 1]);
    }
  }

  /** One term of the inverse transform: the lobes of two neighbours. */
  lemma BeatOfNeighbours(sine: bool, p: real, q: real, z: C, N: real, r: C)
    requires r == if sine then C(N * (q - p), N * (-q - p)) else C(N * (q + p), N * (q - p))
    ensures Mul(r, Conj(z)).re == N * (Product(p, Lobe(sine, true, z)) + Product(q, Lobe(sine, false, z)))
  {
    var u := if sine then C(q - p, -q - p) else C(q + p, q - p);
    assert Mul(r, Conj(z)).re == (N * u.re) * z.re + (N * u.im) * z.im;
    Triple(N, u.re, z.re);
    Triple(N, u.im, z.im);
    RealDistribute(N, u.re * z.re, u.im * z.im);
    RealDistribute(z.re, q, p);
    RealDistribute(z.im, q, p);
    RealDistribute(z.im, -q, p);
    Spreads(p, z.re, z.im);
    Spreads(q, z.re, z.im);
    assert -q * z.im == -(q * z.im);
  }

  /** The entries that the backward passes start from. */
  lemma SpreadEntry(sine: bool, x: seq<real>, m: nat)
    requires |x| >= 2 && |x| % 2 == 0 && 2 * m < |x|
    ensures var u := Pairs(Ddct.Spread(sine, x))[m];
      var last := x[|x| - 1];
      u == if m == 0 then (if sine then C(x[0] - last, x[0] + last) else C(x[0] + last, x[0] - last))
      else if sine then C(x[2 * m] - x[2 * m - 1], -x[2 * m] - x[2 * m - 1])
      else C(x[2 * m] + x[2 * m - 1], x[2 * m] - x[2 * m - 1])
  {
  }

  /** What IsRealTransform says about the entries of the whole transform. */
  lemma EntryOf(r: seq<C>, s: seq<C>, theta: C, m: nat)
    requires IsRealTransform(r, s, theta) && m <= |s|
    ensures |r| == |s| > 0
    ensures Transform(Reals(s), theta, m) ==
      if m == 0 then C(r[0].re, 0.0) else if m == |s| then C(r[0].im, 0.0) else r[m]
  {
    hide Transform, Reals;
  }

  /** The setting of the backward transforms: s is what the passes left for x, N the number of pairs. */
  ghost predicate Back(sine: bool, x: seq<real>, s: seq<C>, theta: C, N: nat)
  {
    N > 0 && |x| == 2 * N && |s| == N && Norm(theta) == 1.0 && Power(theta, N) == C(-1.0, 0.0) &&
    IsRealTransform(Packed(Scale(C(N as real, 0.0), Pairs(Ddct.Spread(sine, x)))), s, theta)
  }

  lemma BackIs(sine: bool, x: seq<real>, s: seq<C>, theta: C, N: nat)
    requires Back(sine, x, s, theta, N)
    ensures N > 0 && |x| == 2 * N && |s| == N && Norm(theta) == 1.0 && Power(theta, N) == C(-1.0, 0.0)
    ensures IsRealTransform(Packed(Scale(C(N as real, 0.0), Pairs(Ddct.Spread(sine, x)))), s, theta)
    ensures |Reals(s)| == 2 * N && AllReal(Reals(s))
  {
    hide Norm, Power, IsRealTransform;
  }

  /** Entry m of the packed transform, n/2 times the mixed neighbours. */
  lemma PackedSpread(sine: bool, x: seq<real>, N: nat, m: nat)
    requires N > 0 && |x| == 2 * N && m < N
    ensures var r, n := Packed(Scale(C(N as real, 0.0), Pairs(Ddct.Spread(sine, x))))[m], N as real;
      if m == 0 then r == C(n * (2.0 * x[0]), n * (if sine then -2.0 * x[2 * N - 1] else 2.0 * x[2 * N - 1]))
      else
        var p, q := x[2 * m - 1], x[2 * m];
        r == if sine then C(n * (q - p), n * (-q - p)) else C(n * (q + p), n * (q - p))
  {
    hide *;
    var n, u := N as real, Pairs(Ddct.Spread(sine, x));
    SpreadEntry(sine, x, m);
    ScaledEntry(n, u, m);
    PackedAt(Scale(C(n, 0.0), u), m);
    if m == 0 {
      FrontOfSpread(sine, n, x[0], x[2 * N - 1], u[0]);
    }
  }

  lemma ScaledEntry(n: real, u: seq<C>, m: nat)
    requires m < |u|
    ensures Scale(C(n, 0.0), u)[m] == C(n * u[m].re, n * u[m].im)
  {
    RealTimes(n, u[m]);
    hide Mul;
  }

  lemma PackedAt(s: seq<C>, m: nat)
    requires m < |s|
    ensures Packed(s)[m] == if m == 0 then C(s[0].re + s[0].im, s[0].re - s[0].im) else s[m]
  {
  }

  lemma FrontOfSpread(sine: bool, n: real, x: real, y: real, u: C)
    requires u == if sine then C(x - y, x + y) else C(x + y, x - y)
    ensures n * u.re + n * u.im == n * (2.0 * x) && n * u.re - n * u.im == n * (if sine then -2.0 * y else 2.0 * y)
  {
    RealDistribute(n, u.re, u.im);
    assert u.re + u.im == 2.0 * x && u.re - u.im == if sine then -2.0 * y else 2.0 * y;
  }

  /** A term between the first and the middle one: the lobes of two neighbours. */
  lemma InnerBeat(sine: bool, x: seq<real>, s: seq<C>, theta: C, N: nat, k: nat, m: nat)
    requires Back(sine, x, s, theta, N) && 0 < m < N && k < 2 * N
    ensures |Reals(s)| == 2 * N
    ensures var row := LobeRow(sine, theta, 2 * N, k);
      Beats(All(Reals(s), theta), theta, k)[m] ==
      (N as real) * (Product(x[2 * m - 1], row[2 * m - 1]) + Product(x[2 * m], row[2 * m]))
  {
    hide *;
    BackIs(sine, x, s, theta, N);
    var r := Packed(Scale(C(N as real, 0.0), Pairs(Ddct.Spread(sine, x))));
    EntryOf(r, s, theta, m);
    PackedSpread(sine, x, N, m);
    BeatIs(Reals(s), theta, k, m);
    ConjPower(theta, m * k);
    BeatOfNeighbours(sine, x[2 * m - 1], x[2 * m], Power(theta, m * k), N as real, r[m]);
    RowIs(sine, theta, 2 * N, k, 2 * m - 1, m, true);
    RowIs(sine, theta, 2 * N, k, 2 * m, m, false);
  }

  lemma RowIs(sine: bool, theta: C, n: nat, k: nat, l: nat, m: nat, odd: bool)
    requires l < n && l == if odd then 2 * m - 1 else 2 * m
    ensures LobeRow(sine, theta, n, k)[l] == Lobe(sine, odd, Power(theta, m * k))
  {
    Swapped(m, k);
    assert (l + 1) / 2 == m && (l % 2 == 1 <==> odd);
    hide Power, Lobe;
  }

  /** The first and the middle term. */
  lemma OuterBeats(sine: bool, x: seq<real>, s: seq<C>, theta: C, N: nat, k: nat)
    requires Back(sine, x, s, theta, N) && k < 2 * N
    ensures |Reals(s)| == 2 * N
    ensures var t, row, n := Beats(All(Reals(s), theta), theta, k), LobeRow(sine, theta, 2 * N, k), 2.0 * (N as real);
      t[0] == n * Product(x[0], row[0]) && t[N] == n * Product(x[2 * N - 1], row[2 * N - 1])
  {
    hide *;
    BackIs(sine, x, s, theta, N);
    var r, n, last := Packed(Scale(C(N as real, 0.0), Pairs(Ddct.Spread(sine, x)))), N as real, x[2 * N - 1];
    EntryOf(r, s, theta, 0);
    EntryOf(r, s, theta, N);
    PackedSpread(sine, x, N, 0);
    BeatIs(Reals(s), theta, k, 0);
    BeatIs(Reals(s), theta, k, N);
    ConjPower(theta, N * k);
    MiddlePower(theta, N, k);
    RowIs(sine, theta, 2 * N, k, 0, 0, false);
    RowIs(sine, theta, 2 * N, k, 2 * N - 1, N, true);
    FirstBeat(sine, n, x[0], theta, k, C(r[0].re, 0.0));
    MiddleBeat(sine, n, last, Power(theta, N * k), C(r[0].im, 0.0));
  }

  lemma MiddlePower(theta: C, N: nat, k: nat)
    requires Power(theta, N) == C(-1.0, 0.0)
    ensures Power(theta, N * k).im == 0.0
  {
    hide *;
    PowerPower(theta, N, k);
    MinusOnes(k);
  }

  lemma FirstBeat(sine: bool, n: real, x: real, theta: C, k: nat, r: C)
    requires r.re == n * (2.0 * x) && r.im == 0.0
    ensures Mul(r, Power(Conj(theta), 0 * k)).re == (2.0 * n) * Product(x, Lobe(sine, false, Power(theta, 0 * k)))
  {
    assert 0 * k == 0;
    PowerFirst(theta);
    PowerFirst(Conj(theta));
    hide Power;
    MulOne(r);
    Triple(n, 2.0, x);
  }

  lemma MiddleBeat(sine: bool, n: real, x: real, z: C, r: C)
    requires z.im == 0.0 && r.im == 0.0 && r.re == n * (if sine then -2.0 * x else 2.0 * x)
    ensures Mul(r, Conj(z)).re == (2.0 * n) * Product(x, Lobe(sine, true, z))
  {
    var y := if sine then -2.0 * x else 2.0 * x;
    assert Mul(r, Conj(z)).re == (n * y) * z.re;
    Triple(n, y, z.re);
    Triple(n, 2.0, x * z.re);
    Triple(2.0, x, z.re);
    assert x * -z.re == -(x * z.re) && -x * z.re == -(x * z.re);
    assert y * z.re == if sine then -(2.0 * (x * z.re)) else 2.0 * (x * z.re);
  }

  /** The terms in pairs against the lobes of neighbours. */
  lemma {:induction false} PairsOfBeats(sine: bool, x: seq<real>, s: seq<C>, theta: C, N: nat, k: nat, h: nat)
    requires Back(sine, x, s, theta, N) && k < 2 * N && h <= N
    ensures |x| == 2 * N && |Reals(s)| == 2 * N
    ensures PairDot(Beats(All(Reals(s), theta), theta, k), Ones(2 * N), h) ==
            (2.0 * (N as real)) * NeighbourDot(x, LobeRow(sine, theta, 2 * N, k), h)
  {
    hide *;
    BackIs(sine, x, s, theta, N);
    var t, row := Beats(All(Reals(s), theta), theta, k), LobeRow(sine, theta, 2 * N, k);
    PairStep(t, N, h);
    NeighbourStep(x, row, h);
    if h > 1 {
      var m := h - 1;
      PairsOfBeats(sine, x, s, theta, N, k, m);
      InnerBeat(sine, x, s, theta, N, k, m);
      FullOfHalf(theta, N);
      BeatMirror(Reals(s), theta, k, m);
      TwiceOf(N as real, NeighbourDot(x, row, m),
        Product(x[2 * m - 1], row[2 * m - 1]) + Product(x[2 * m], row[2 * m]));
    }
  }

  lemma FullOfHalf(theta: C, N: nat)
    requires Power(theta, N) == C(-1.0, 0.0)
    ensures Power(theta, 2 * N) == ONE
  {
    hide *;
    TwicePower(theta, N);
    MinusOneSquared();
  }

  lemma MinusOneSquared()
    ensures Mul(C(-1.0, 0.0), C(-1.0, 0.0)) == ONE
  {
  }

  lemma PairStep(t: seq<real>, N: nat, h: nat)
    requires |t| == 2 * N && h <= N
    ensures PairDot(t, Ones(2 * N), h) ==
      if h <= 1 then 0.0 else PairDot(t, Ones(2 * N), h - 1) + t[h - 1] + t[2 * N - (h - 1)]
  {
  }

  lemma NeighbourStep(a: seq<real>, b: seq<real>, h: nat)
    requires |a| == |b| && 2 * h <= |a|
    ensures NeighbourDot(a, b, h) ==
      if h <= 1 then 0.0
      else
        NeighbourDot(a, b, h - 1) +
        (Product(a[2 * (h - 1) - 1], b[2 * (h - 1) - 1]) + Product(a[2 * (h - 1)], b[2 * (h - 1)]))
  {
    hide Product;
  }

  lemma TwiceOf(n: real, a: real, b: real)
    ensures (2.0 * n) * (a + b) == (2.0 * n) * a + n * b + n * b
  {
    RealDistribute(2.0 * n, a, b);
    Triple(2.0, n, b);
  }

  /** rftbsub and the backward passes on mixed neighbours: the sum of the lobes. */
  lemma BackwardLobes(sine: bool, x: seq<real>, s: seq<C>, theta: C, K: nat, k: nat)
    requires Back(sine, x, s, theta, Pow(2, K)) && k < |x|
    ensures |x| == 2 * |s| && Flat(s)[k] == Dot(x, LobeRow(sine, theta, |x|, k), |x|)
  {
    hide *;
    BackIs(sine, x, s, theta, Pow(2, K));
    var N := |s|;
    WholeSum(s, theta, K, k);
    BeatsAdd(sine, x, s, theta, N, k);
    SameSums(N, Flat(s)[k], Dot(x, LobeRow(sine, theta, 2 * N, k), 2 * N));
  }

  /** The inverse transform gives the reals back, n times as large. */
  lemma WholeSum(s: seq<C>, theta: C, K: nat, k: nat)
    requires |s| == Pow(2, K) && Norm(theta) == 1.0 && Power(theta, |s|) == C(-1.0, 0.0) && k < 2 * |s|
    ensures |Reals(s)| == 2 * |s|
    ensures Dot(Beats(All(Reals(s), theta), theta, k), Ones(2 * |s|), 2 * |s|) == Flat(s)[k] * ((2 * |s|) as real)
  {
    hide *;
    TwiceAs(K);
    var e := Reals(s);
    Inverse(e, theta, K + 1, k);
    TransformIsSum(All(e, theta), Conj(theta), k);
    SumOfBeats(All(e, theta), theta, k, 2 * |s|);
    RealsFlat(s, k);
    RealTimes(Flat(s)[k], C((2 * |s|) as real, 0.0));
  }

  /** All terms together. */
  lemma BeatsAdd(sine: bool, x: seq<real>, s: seq<C>, theta: C, N: nat, k: nat)
    requires Back(sine, x, s, theta, N) && k < 2 * N
    ensures |x| == |Reals(s)| == 2 * N && |s| == N
    ensures Dot(Beats(All(Reals(s), theta), theta, k), Ones(2 * N), 2 * N) ==
            (2.0 * (N as real)) * Dot(x, LobeRow(sine, theta, 2 * N, k), 2 * N)
  {
    hide *;
    BackIs(sine, x, s, theta, N);
    var t, row := Beats(All(Reals(s), theta), theta, k), LobeRow(sine, theta, 2 * N, k);
    DotPaired(t, Ones(2 * N), N);
    OnesProduct(t, N, 0);
    OnesProduct(t, N, N);
    OuterBeats(sine, x, s, theta, N, k);
    PairsOfBeats(sine, x, s, theta, N, k, N);
    DotByNeighbours(x, row, N);
    DotSteps(x, row, 2 * N);
    ThreeParts(2.0 * (N as real), Product(x[0], row[0]), Product(x[2 * N - 1], row[2 * N - 1]),
      NeighbourDot(x, row, N));
  }

  lemma ThreeParts(n: real, a: real, b: real, c: real)
    ensures n * (a + c + b) == n * a + n * b + n * c
  {
    RealDistribute(n, a + c, b);
    RealDistribute(n, a, c);
  }

  lemma TwiceAs(K: nat)
    ensures Pow(2, K + 1) == 2 * Pow(2, K) && K + 1 - 1 == K
  {
  }

  lemma OnesProduct(t: seq<real>, N: nat, i: nat)
    requires |t| == 2 * N && i < 2 * N
    ensures Product(t[i], Ones(2 * N)[i]) == t[i]
  {
  }

  lemma RealsFlat(s: seq<C>, k: nat)
    requires k < 2 * |s|
    ensures Reals(s)[k] == C(Flat(s)[k], 0.0)
  {
  }

  lemma SameSums(N: nat, y: real, d: real)
    requires N > 0 && y * ((2 * N) as real) == (2.0 * (N as real)) * d
    ensures y == d
  {
    var n := 2.0 * (N as real);
    assert (2 * N) as real == n;
    SameFactorReal(y, d, n);
  }

  lemma SameFactorReal(y: real, d: real, n: real)
    requires n > 0.0 && y * n == n * d
    ensures y == d
  {
    RealDistribute(n, y, d);
    NoFactor(n, y - d);
  }

  // ----- turning the sums -----

  lemma {:induction false} DotTurn(sine: bool, w: real, v: real, x: seq<real>, p: seq<real>, q: seq<real>,
                                   t: seq<real>, u: seq<real>, n: nat)
    requires |p| == |q| == |t| == |u| == |x| && n <= |x|
    requires forall l: nat :: l < |x| ==>
      t[l] == First(sine, w, v, p[l], q[l]) && u[l] == Second(sine, w, v, p[l], q[l])
    ensures Dot(x, t, n) == First(sine, w, v, Dot(x, p, n), Dot(x, q, n))
    ensures Dot(x, u, n) == Second(sine, w, v, Dot(x, p, n), Dot(x, q, n))
  {
    hide First, Second, Product;
    if n == 0 {
      NoTerms(sine, w, v);
    } else {
      DotTurn(sine, w, v, x, p, q, t, u, n - 1);
      TurnAdds(sine, w, v, Dot(x, p, n - 1), Dot(x, q, n - 1), x[n - 1], p[n - 1], q[n - 1]);
    }
  }

  lemma NoTerms(sine: bool, w: real, v: real)
    ensures First(sine, w, v, 0.0, 0.0) == 0.0 && Second(sine, w, v, 0.0, 0.0) == 0.0
  {
  }

  lemma TurnAdds(sine: bool, w: real, v: real, a: real, b: real, x: real, p: real, q: real)
    ensures First(sine, w, v, a, b) + Product(x, First(sine, w, v, p, q)) ==
      First(sine, w, v, a + Product(x, p), b + Product(x, q))
    ensures Second(sine, w, v, a, b) + Product(x, Second(sine, w, v, p, q)) ==
            Second(sine, w, v, a + Product(x, p), b + Product(x, q))
  {
    var d, s := w - v, w + v;
    SymmetricAlgebra(d, s, x, x, p, q);
    SymmetricAlgebra(d, s, x, x, q, p);
    Across(d, a, x, p);
    Across(d, b, x, q);
    Across(s, a, x, p);
    Across(s, b, x, q);
  }

  lemma Across(d: real, a: real, x: real, p: real)
    ensures d * (a + x * p) == d * a + x * (d * p)
  {
    RealDistribute(d, a, x * p);
    Around(d, x, p);
    Triple(d, x, p);
  }

  lemma {:induction false} DotTimes(x: seq<real>, p: seq<real>, t: seq<real>, c: real, n: nat)
    requires |p| == |t| == |x| && n <= |x| && forall l: nat :: l < |x| ==> t[l] == Product(p[l], c)
    ensures Dot(x, t, n) == Product(Dot(x, p, n), c)
  {
    if n > 0 {
      DotTimes(x, p, t, c, n - 1);
      RealDistribute(c, Dot(x, p, n - 1), x[n - 1] * p[n - 1]);
      Triple(x[n - 1], p[n - 1], c);
    }
  }

  lemma RowAt(sine: bool, psi: C, n: nat, k: nat, l: nat)
    requires k < n && l < n
    ensures LobeRow(sine, Power(psi, 4), n, k)[l] == LobeColumn(sine, Power(psi, 4), n, l)[k]
    ensures TrigRow(sine, psi, n, k)[l] == TrigAt(sine, psi, n, k, l) == TrigColumn(sine, psi, n, l)[k]
  {
    hide Power;
  }

  /** Sums of lobes, turned, are sums of cosines or sines. */
  lemma SumsTurned(sine: bool, c: seq<real>, ks: nat, n: nat, psi: C, x: seq<real>, y: seq<real>, k: nat)
    requires Setting(c, ks, n, psi) && Fine(c, ks, n) && |x| == |y| == n && k < n
    requires forall k: nat :: k < n ==> y[k] == Dot(x, LobeRow(sine, Power(psi, 4), n, k), n)
    ensures Ddct.Turned(sine, c, ks, y)[k] == Dot(x, TrigRow(sine, psi, n, k), n)
  {
    hide *;
    SettingIs(c, ks, n, psi);
    TurnedFixed(sine, c, ks, y, n / 2);
    if k == 0 {
      FirstRow(sine, c, ks, n, psi);
    } else if 2 * k == n {
      MiddleRow(sine, c, ks, n, psi, x);
    } else {
      var j := if 2 * k < n then k else n - k;
      TurnedPair(sine, c, ks, y, j);
      PairRows(sine, c, ks, n, psi, x, j);
    }
  }

  lemma FirstRow(sine: bool, c: seq<real>, ks: nat, n: nat, psi: C)
    requires Setting(c, ks, n, psi) && Fine(c, ks, n) && n > 0
    ensures LobeRow(sine, Power(psi, 4), n, 0) == TrigRow(sine, psi, n, 0)
  {
    hide *;
    forall l: nat | l < n ensures LobeRow(sine, Power(psi, 4), n, 0)[l] == TrigRow(sine, psi, n, 0)[l] {
      RowAt(sine, psi, n, 0, l);
      SettingIs(c, ks, n, psi);
      ColumnFirst(sine, c, ks, n, psi, l);
      TurnedFixed(sine, c, ks, LobeColumn(sine, Power(psi, 4), n, l), n / 2);
    }
  }

  lemma MiddleRow(sine: bool, c: seq<real>, ks: nat, n: nat, psi: C, x: seq<real>)
    requires Setting(c, ks, n, psi) && Fine(c, ks, n) && |x| == n && |c| > 0
    ensures Dot(x, TrigRow(sine, psi, n, n / 2), n) == Product(Dot(x, LobeRow(sine, Power(psi, 4), n, n / 2), n), c[0])
  {
    hide *;
    SettingIs(c, ks, n, psi);
    var p, t := LobeRow(sine, Power(psi, 4), n, n / 2), TrigRow(sine, psi, n, n / 2);
    forall l: nat | l < n ensures t[l] == Product(p[l], c[0]) {
      RowAt(sine, psi, n, n / 2, l);
      ColumnMiddle(sine, c, ks, n, psi, l);
      TurnedFixed(sine, c, ks, LobeColumn(sine, Power(psi, 4), n, l), n / 2);
    }
    DotTimes(x, p, t, c[0], n);
  }

  lemma PairRows(sine: bool, c: seq<real>, ks: nat, n: nat, psi: C, x: seq<real>, j: nat)
    requires Setting(c, ks, n, psi) && 0 < j < n / 2 && |x| == n
    ensures 0 < j * ks < |c|
    ensures var w, v := c[j * ks], c[|c| - j * ks];
      var p, q := LobeRow(sine, Power(psi, 4), n, j), LobeRow(sine, Power(psi, 4), n, n - j);
      Dot(x, TrigRow(sine, psi, n, j), n) == First(sine, w, v, Dot(x, p, n), Dot(x, q, n)) &&
      Dot(x, TrigRow(sine, psi, n, n - j), n) == Second(sine, w, v, Dot(x, p, n), Dot(x, q, n))
  {
    hide *;
    SettingIs(c, ks, n, psi);
    SettingAt(c, ks, n, psi, j);
    var w, v, p, q := c[j * ks], c[|c| - j * ks], LobeRow(sine, Power(psi, 4), n, j),
      LobeRow(sine, Power(psi, 4), n, n - j);
    var t, u := TrigRow(sine, psi, n, j), TrigRow(sine, psi, n, n - j);
    forall l: nat | l < n ensures t[l] == First(sine, w, v, p[l], q[l]) && u[l] == Second(sine, w, v, p[l], q[l]) {
      RowAt(sine, psi, n, j, l);
      RowAt(sine, psi, n, n - j, l);
      PairValues(sine, psi, n, j, l);
    }
    DotTurn(sine, w, v, x, p, q, t, u, n);
  }

  /** ddct and ddst with isgn < 0: entry k of the result. */
  lemma BackwardSum(sine: bool, n: nat, w: array<real>, nw: nat, nc: nat, K: nat, K0: nat, omega: C, theta: C,
                    ks: nat, psi: C, x: seq<real>, k: nat)
    requires RealTables(n, w, nw, nc, K, K0, omega, theta) && Setting(w[nw..nw + nc], ks, n, psi)
    requires theta == Power(psi, 4)
    requires |x| == n && k < n
    ensures var c := w[nw..nw + nc];
      Ddct.Turned(sine, c, ks, Flat(Rebuilt(n, c, nc, K, theta, Pairs(Ddct.Spread(sine, x)))))[k] ==
      Dot(x, TrigRow(sine, psi, n, k), n)
  {
    hide *;
    TableSizes(n, w, nw, nc, K, K0, omega, theta);
    var c := w[nw..nw + nc];
    SettingIs(c, ks, n, psi);
    var s := Rebuilt(n, c, nc, K, theta, Pairs(Ddct.Spread(sine, x)));
    ForwardTransforms(n, w, nw, nc, K, K0, omega, theta, s);
    SpectrumOfRebuilt(n, w, nw, nc, K, K0, omega, theta, Pairs(Ddct.Spread(sine, x)));
    KernelTables(n, w, nw, nc, K, K0, omega, theta);
    KernelEnds(theta, Pow(2, K));
    BackFrom(sine, x, s, theta, Pow(2, K));
    forall k: nat | k < n
      ensures Flat(s)[k] == Dot(x, LobeRow(sine, theta, n, k), n)
    {
      BackwardLobes(sine, x, s, theta, K, k);
    }
    SumsTurned(sine, c, ks, n, psi, x, Flat(s), k);
  }

  lemma BackFrom(sine: bool, x: seq<real>, s: seq<C>, theta: C, N: nat)
    requires N > 0 && |x| == 2 * N && |s| == N && RealKernel(theta, N)
    requires IsRealTransform(Packed(Scale(C(N as real, 0.0), Pairs(Ddct.Spread(sine, x)))), s, theta)
    ensures Back(sine, x, s, theta, N)
  {
    hide Norm, Power, IsRealTransform;
  }

  // ----- ddct and ddst as they are called -----

  /** The tables that ddct and ddst make give the setting. */
  lemma SettingHolds(c: seq<real>, root: nat -> C, d: nat, K: nat, n: nat)
    requires Angles(root) && |c| == Pow(2, d) && HalfCosines(c, root(d + 2)) && d >= K + 1 && n == Pow(2, K + 1)
    ensures Setting(c, Steps(Pow(2, d), n), n, root(K + 3)) && root(K + 1) == Power(root(K + 3), 4)
  {
    hide *;
    var psi, ks := root(K + 3), Pow(2, d - (K + 1));
    QuarterTurn(root, K + 1);
    StepsOfTable(d, K + 1);
    RootPower(root, K + 1, 2);
    SmallPowers();
    StepsAreFine(n, Pow(2, d), c);
    forall j: nat | 0 < j < n / 2
      ensures 0 < j * ks < |c| && c[j * ks] == Power(psi, j).re / 2.0 && c[|c| - j * ks] == Power(psi, j).im / 2.0
    {
      EntryOfStep(c, root, d, K, ks, n, j);
    }
    FrontOfTable(c, root, d, K, ks, n);
    SettingFrom(c, ks, n, psi);
  }

  lemma StepsOfTable(d: nat, K: nat)
    requires K <= d && K >= 1
    ensures Steps(Pow(2, d), Pow(2, K)) == Pow(2, d - K) > 0
    ensures Pow(2, d - K) * (Pow(2, K) / 2) == Pow(2, d) / 2 && Pow(2, K) % 2 == 0 && 2 <= Pow(2, K) <= Pow(2, d)
  {
    hide *;
    PowAdd(2, d - K, K);
    PowAdd(2, d - K, K - 1);
    PowerOfTwo(K - 1);
    PowerOfTwo(d - 1);
    PowerOfTwo(d - K);
    PowMono(2, K, d);
    assert d - K + (K - 1) == d - 1;
    StepsIs(Pow(2, d), Pow(2, K), Pow(2, d - K));
    HalfOf(Pow(2, K), Pow(2, K - 1));
    HalfOf(Pow(2, d), Pow(2, d - 1));
  }

  lemma StepsIs(nc: nat, n: nat, q: nat)
    requires nc == q * n && n > 0
    ensures Steps(nc, n) == q
  {
    QuotientIs(nc, n, q, 0);
  }

  lemma EntryOfStep(c: seq<real>, root: nat -> C, d: nat, K: nat, ks: nat, n: nat, j: nat)
    requires Angles(root) && HalfCosines(c, root(d + 2)) && d >= K + 1 && ks == Pow(2, d - (K + 1))
    requires Fine(c, ks, n) && 0 < j < n / 2
    ensures var psi := root(K + 3);
      0 < j * ks < |c| && c[j * ks] == Power(psi, j).re / 2.0 && c[|c| - j * ks] == Power(psi, j).im / 2.0
  {
    hide *;
    FineAt(c, ks, n, j);
    StepPower(root, d, K, j);
    Swapped(ks, j);
    CosineAt(c, root(d + 2), j * ks);
  }

  lemma StepPower(root: nat -> C, d: nat, K: nat, j: nat)
    requires Angles(root) && d >= K + 1
    ensures Power(root(d + 2), Pow(2, d - (K + 1)) * j) == Power(root(K + 3), j)
  {
    hide *;
    RootPower(root, K + 3, d - (K + 1));
    assert K + 3 + (d - (K + 1)) == d + 2;
    PowerPower(root(d + 2), Pow(2, d - (K + 1)), j);
  }

  lemma FrontOfTable(c: seq<real>, root: nat -> C, d: nat, K: nat, ks: nat, n: nat)
    requires Angles(root) && |c| == Pow(2, d) && HalfCosines(c, root(d + 2)) && d >= K + 1
    requires ks == Pow(2, d - (K + 1)) && n == Pow(2, K + 1)
    ensures |c| > 0 && c[0] == Power(root(K + 3), n / 2).re
  {
    hide *;
    StepsOfTable(d, K + 1);
    StepPower(root, d, K, n / 2);
    FirstCosine(c, root(d + 2));
  }

  lemma FirstCosine(c: seq<real>, phi: C)
    requires HalfCosines(c, phi)
    ensures |c| > 0 && c[0] == Power(phi, |c| / 2).re
  {
    hide Power;
  }

  lemma SettingFrom(c: seq<real>, ks: nat, n: nat, psi: C)
    requires Fine(c, ks, n) && |c| > 0 && Norm(psi) == 1.0 && Power(psi, n) == I && c[0] == Power(psi, n / 2).re
    requires forall j: nat :: 0 < j < n / 2 ==>
      0 < j * ks < |c| && c[j * ks] == Power(psi, j).re / 2.0 && c[|c| - j * ks] == Power(psi, j).im / 2.0
    ensures Setting(c, ks, n, psi)
  {
    hide Power, Norm, Fine;
  }

  /** The setting of one call, from what is in ip and w. */
  lemma CallSetting(n: nat, ip: array<nat>, w: array<real>, root: nat -> C, K: nat, K1: nat, d: nat)
    requires n == 2 * Pow(2, K) && Angles(root) && TablesReady(ip, w, root, K1, d) && n <= ip[1]
    ensures ip.Length >= 2 && ip[0] + ip[1] <= w.Length && n >= 2
    ensures Setting(w[ip[0]..ip[0] + ip[1]], Steps(ip[1], n), n, root(K + 3)) && root(K + 1) == Power(root(K + 3), 4)
  {
    hide *;
    TablesAre(ip, w, root, K1, d);
    SizesAre(n, K);
    PowerOfTwo(K);
    if d < K + 1 {
      PowMono(2, d, K);
      assert false;
    }
    SettingHolds(w[ip[0]..ip[0] + ip[1]], root, d, K, n);
  }

  /** ddct, and with sine ddst: the documented sums after any earlier calls. */
  method CallDdct(sine: bool, n: nat, isgn: int, a: array<real>, ip: array<nat>, w: array<real>, wave: (nat, nat) -> C,
                  ghost root: nat -> C, ghost K: nat, ghost K0: nat, ghost d0: nat)
    returns (ghost K1: nat, ghost d1: nat)
    requires n == 2 * Pow(2, K) && n <= a.Length && a != w
    requires Angles(root) && IsWave(wave, root) && TablesReady(ip, w, root, K0, d0)
    requires NewFactors(n, ip[0]) + NewCosines(true, n, ip[0], ip[1]) <= w.Length
    requires n > 4 ==> 2 + Pow(2, K / 2) <= ip.Length
    modifies a, ip, w
    ensures TablesReady(ip, w, root, K1, d1)
    ensures ip[0] == NewFactors(n, old(ip[0])) && ip[1] == NewCosines(true, n, old(ip[0]), old(ip[1]))
    ensures isgn >= 0 ==> forall l: nat :: l < n ==> a[l] == Dot(old(a[..n]), TrigColumn(sine, root(K + 3), n, l), n)
    ensures isgn < 0 ==> forall k: nat :: k < n ==> a[k] == Dot(old(a[..n]), TrigRow(sine, root(K + 3), n, k), n)
  {
    hide *;
    ghost var x, theta, psi := a[..n], root(K + 1), root(K + 3);
    K1, d1 := NeedTables(true, n, ip, w, wave, root, K, K0, d0);
    assert a[..n] == x;
    TablesAre(ip, w, root, K1, d1);
    CallSetting(n, ip, w, root, K, K1, d1);
    var nw, nc := ip[0], ip[1];
    ghost var ks := Steps(nc, n);
    if isgn >= 0 {
      forall l: nat | l < n {
        ForwardSum(sine, n, w, nw, nc, K, K1, root(K1), theta, ks, psi, x, l);
      }
      DdctForward(sine, n, a, ip, w, nw, nc, K, K1, root(K1), theta);
    } else {
      forall k: nat | k < n {
        BackwardSum(sine, n, w, nw, nc, K, K1, root(K1), theta, ks, psi, x, k);
      }
      DdctBackward(sine, n, a, ip, w, nw, nc, K, K1, root(K1), theta);
    }
    assert forall i: nat :: i < n ==> a[i] == a[..n][i];
    ReadyFrom(ip, w, K1, root(K1));
    TablesFrom(ip, w, root, K1, d1);
  }
}
