/** splined: the second derivatives of a cubic spline, by elimination and back substitution in one array;
    and what epotkick makes of them between the knots. */
module Spline {
  import opened RealAlgebra

  /** Slopes of at least this are no slopes: the end is free. The two ends have bounds of their own. */
  const FREE_START: real := 990000000000000000000000000000000.0
  const FREE_END: real := 990000000000000000000000000000.0

  ghost predicate Increasing(x: seq<real>)
  {
    forall i :: 0 < i < |x| ==> x[i - 1] < x[i]
  }

  /** The value at a knot from that at the next: c z + u. */
  function Line(e: (real, real), z: real): real
  {
    e.0 * z + e.1
  }

  function Equation(sig: real, z0: real, z1: real, z2: real): real
  {
    sig * z0 + 2.0 * z1 + (1.0 - sig) * z2
  }

  /** The slope of the chord from knot i to knot i + 1. */
  function Chord(x: seq<real>, y: seq<real>, i: nat): real
    requires Increasing(x) && i + 1 < |x| == |y|
  {
    assert x[i] < x[i + 1];
    Over(y[i + 1] - y[i], x[i + 1] - x[i])
  }

  /** The share of the first of the two steps around knot i. */
  function Sig(x: seq<real>, i: nat): (s: real)
    requires Increasing(x) && 0 < i && i + 1 < |x|
    ensures 0.0 < s < 1.0
  {
    assert x[i - 1] < x[i] < x[i + 1];
    ShareBounds(x[i] - x[i - 1], x[i + 1] - x[i - 1]);
    Over(x[i] - x[i - 1], x[i + 1] - x[i - 1])
  }

  lemma ShareBounds(a: real, b: real)
    requires 0.0 < a < b
    ensures 0.0 < Over(a, b) < 1.0
  {
    var q := Over(a, b);
    SignOf(q, b);
    var r := 1.0 - q;
    Spread(b, 1.0, q);
    assert r * b == b - a;
    hide Over;
    SignOf(r, b);
  }

  /** The right-hand side at knot i: how much the chords turn. */
  function Turn(x: seq<real>, y: seq<real>, i: nat): real
    requires Increasing(x) && 0 < i && i + 1 < |x| == |y|
  {
    assert x[i - 1] < x[i] < x[i + 1];
    Over(6.0 * (Chord(x, y, i) - Chord(x, y, i - 1)), x[i + 1] - x[i - 1])
  }

  /** The equation of the spline at an inner knot. */
  ghost predicate Inner(x: seq<real>, y: seq<real>, z: seq<real>, i: nat)
    requires Increasing(x) && 0 < i && i + 1 < |x| == |y| == |z|
  {
    Equation(Sig(x, i), z[i - 1], z[i], z[i + 1]) == Turn(x, y, i)
  }

  /** At the ends: no curvature, or the given slope. */
  ghost predicate StartOf(x: seq<real>, y: seq<real>, yp1: real, z: seq<real>)
    requires Increasing(x) && 2 <= |x| == |y| == |z|
  {
    assert x[0] < x[1];
    if yp1 > FREE_START then z[0] == 0.0
    else 2.0 * z[0] + z[1] == 6.0 * Over(Chord(x, y, 0) - yp1, x[1] - x[0])
  }

  ghost predicate EndOf(x: seq<real>, y: seq<real>, ypn: real, z: seq<real>)
    requires Increasing(x) && 2 <= |x| == |y| == |z|
  {
    var n := |x|;
    assert x[n - 2] < x[n - 1];
    if ypn > FREE_END then z[n - 1] == 0.0
    else z[n - 2] + 2.0 * z[n - 1] == 6.0 * Over(ypn - Chord(x, y, n - 2), x[n - 1] - x[n - 2])
  }

  /** z are the second derivatives of the spline through the points with the given end slopes. */
  ghost predicate Solves(x: seq<real>, y: seq<real>, yp1: real, ypn: real, z: seq<real>)
    requires Increasing(x) && 2 <= |x| == |y| == |z|
  {
    StartOf(x, y, yp1, z) && EndOf(x, y, ypn, z) && forall i :: 0 < i < |x| - 1 ==> Inner(x, y, z, i)
  }

  /** What elimination leaves at knot i: z[i] = c z[i + 1] + u, with c above -1. */
  function Eliminated(x: seq<real>, y: seq<real>, yp1: real, i: nat): (r: (real, real))
    requires Increasing(x) && i + 1 < |x| == |y|
    ensures -1.0 < r.0 <= 0.0
    decreases i
  {
    if i == 0 then
      assert x[0] < x[1];
      if yp1 > FREE_START then (0.0, 0.0) else (-0.5, 3.0 * Over(Chord(x, y, 0) - yp1, x[1] - x[0]))
    else
      var (c, u) := Eliminated(x, y, yp1, i - 1);
      EliminateKnot(Sig(x, i), c, u, Turn(x, y, i))
  }

  /** The elimination at a knot, from what it left at the knot before. */
  function EliminateKnot(sig: real, c: real, u: real, t: real): (r: (real, real))
    requires 0.0 < sig < 1.0 && -1.0 < c <= 0.0
    ensures -1.0 < r.0 <= 0.0
  {
    PivotBounds(sig, c);
    var p := sig * c + 2.0;
    (Over(sig - 1.0, p), Over(t - sig * u, p))
  }

  lemma PivotBounds(sig: real, c: real)
    requires 0.0 < sig < 1.0 && -1.0 < c <= 0.0
    ensures var p := sig * c + 2.0; p > 1.0 && -1.0 < Over(sig - 1.0, p) <= 0.0
  {
    SmallProduct(sig, c);
    var p := sig * c + 2.0;
    SmallQuotient(1.0 - sig, p);
    NegatedQuotient(1.0 - sig, p);
  }

  lemma SmallProduct(s: real, c: real)
    requires 0.0 < s < 1.0 && -1.0 < c <= 0.0
    ensures -1.0 < s * c <= 0.0
  {
    assert s * (-c) >= 0.0;
    assert (1.0 - s) * (-c) >= 0.0;
  }

  lemma SmallQuotient(a: real, p: real)
    requires 0.0 < a < 1.0 && p > 1.0
    ensures 0.0 < Over(a, p) < 1.0
  {
    ShareBounds(a, p);
  }

  lemma NegatedQuotient(a: real, p: real)
    requires p > 0.0
    ensures Over(0.0 - a, p) == 0.0 - Over(a, p)
  {
    var d := Over(0.0 - a, p) + Over(a, p);
    assert d * p == Over(0.0 - a, p) * p + Over(a, p) * p;
    NoFactor(p, d);
  }

  function LastOf(q: real, c: real, u: real, r: real): real
    requires -1.0 < c <= 0.0 && 0.0 <= q <= 1.0
  {
    SmallDivisor(q, c);
    Over(r - q * u, q * c + 1.0)
  }

  lemma SmallDivisor(q: real, c: real)
    requires -1.0 < c <= 0.0 && 0.0 <= q <= 1.0
    ensures q * c + 1.0 > 0.0
  {
    assert (1.0 - q) * (-c) >= 0.0;
  }

  /** The last unknown, from the end condition. */
  function LastValue(x: seq<real>, y: seq<real>, yp1: real, ypn: real): real
    requires Increasing(x) && 2 <= |x| == |y|
  {
    var n := |x|;
    assert x[n - 2] < x[n - 1];
    var (c, u) := Eliminated(x, y, yp1, n - 2);
    var q := if ypn > FREE_END then 0.0 else 0.5;
    var r := if ypn > FREE_END then 0.0 else 3.0 * Over(ypn - Chord(x, y, n - 2), x[n - 1] - x[n - 2]);
    LastOf(q, c, u, r)
  }

  /** z follows from its last value by back substitution. */
  ghost predicate Substituted(x: seq<real>, y: seq<real>, yp1: real, ypn: real, z: seq<real>)
    requires Increasing(x) && 2 <= |x| == |y| == |z|
  {
    z[|x| - 1] == LastValue(x, y, yp1, ypn) &&
    forall i :: 0 <= i < |x| - 1 ==> z[i] == Line(Eliminated(x, y, yp1, i), z[i + 1])
  }

  /** The equation of a knot is the elimination step, when the knot before has been eliminated. */
  lemma KnotAlgebra(sig: real, c0: real, u0: real, t: real, z0: real, z1: real, z2: real)
    requires 0.0 < sig < 1.0 && -1.0 < c0 <= 0.0 && z0 == Line((c0, u0), z1)
    ensures z1 == Line(EliminateKnot(sig, c0, u0, t), z2) <==> Equation(sig, z0, z1, z2) == t
  {
    EliminateKnotIs(sig, c0, u0, t);
    var p := sig * c0 + 2.0;
    var c, u := Over(sig - 1.0, p), Over(t - sig * u0, p);
    hide Over, EliminateKnot;
    Spread(sig, c0 * z1, u0);
    Assoc(sig, c0, z1);
    Spread(z1, sig * c0, 2.0);
    assert sig * z0 + 2.0 * z1 == p * z1 + sig * u0;
    var r := c * z2 + u;
    Spread(p, c * z2, u);
    Assoc(p, c, z2);
    Spread(z2, sig, 1.0);
    assert p * r == (sig - 1.0) * z2 + (t - sig * u0);
    if p * z1 == p * r {
      Spread(p, z1, r);
      assert p * (z1 - r) == 0.0;
      NoFactor(p, z1 - r);
    }
  }

  lemma KnotSteps(x: seq<real>, y: seq<real>, yp1: real, z: seq<real>, i: nat)
    requires Increasing(x) && |x| == |y| == |z| && 0 < i && i + 1 < |x|
    requires z[i - 1] == Line(Eliminated(x, y, yp1, i - 1), z[i])
    ensures Inner(x, y, z, i) <==> z[i] == Line(Eliminated(x, y, yp1, i), z[i + 1])
  {
    hide *;
    var (c, u) := Eliminated(x, y, yp1, i - 1);
    InnerIs(x, y, z, i);
    EliminatedKnot(x, y, yp1, i);
    KnotAlgebra(Sig(x, i), c, u, Turn(x, y, i), z[i - 1], z[i], z[i + 1]);
  }

  lemma InnerIs(x: seq<real>, y: seq<real>, z: seq<real>, i: nat)
    requires Increasing(x) && 0 < i && i + 1 < |x| == |y| == |z|
    ensures Inner(x, y, z, i) <==> Equation(Sig(x, i), z[i - 1], z[i], z[i + 1]) == Turn(x, y, i)
  {
    hide Sig, Turn, Equation;
  }

  lemma EliminatedKnot(x: seq<real>, y: seq<real>, yp1: real, i: nat)
    requires Increasing(x) && |x| == |y| && 0 < i && i + 1 < |x|
    ensures var (c, u) := Eliminated(x, y, yp1, i - 1);
      Eliminated(x, y, yp1, i) == EliminateKnot(Sig(x, i), c, u, Turn(x, y, i))
  {
    hide EliminateKnot, Sig, Turn;
  }

  lemma StartSteps(x: seq<real>, y: seq<real>, yp1: real, z: seq<real>)
    requires Increasing(x) && 2 <= |x| == |y| == |z|
    ensures StartOf(x, y, yp1, z) <==> z[0] == Line(Eliminated(x, y, yp1, 0), z[1])
  {
    assert x[0] < x[1];
    hide Chord;
  }

  lemma EndAlgebra(c: real, u: real, r: real, a: real, b: real)
    requires -1.0 < c <= 0.0 && a == Line((c, u), b)
    ensures b == LastOf(0.5, c, u, r) <==> a + 2.0 * b == 2.0 * r
  {
    var p := 0.5 * c + 1.0;
    EndDivisor(b, c, p);
    QuotientIff(b, r - 0.5 * u, p);
    EndLinear(Product(c, b), u, r, a, b);
  }

  lemma EndDivisor(b: real, c: real, p: real)
    requires p == 0.5 * c + 1.0
    ensures Product(b, p) == 0.5 * Product(c, b) + b
  {
    Spread(b, 0.5 * c, 1.0);
    Assoc(0.5, c, b);
  }

  lemma EndLinear(t: real, u: real, r: real, a: real, b: real)
    requires a == t + u
    ensures 0.5 * t + b == r - 0.5 * u <==> a + 2.0 * b == 2.0 * r
  {
  }

  lemma QuotientIff(b: real, n: real, p: real)
    requires p > 0.0
    ensures b == Over(n, p) <==> Product(b, p) == n
  {
    if b * p == n {
      IsQuotient(n, p, b);
    }
  }

  lemma EndSteps(x: seq<real>, y: seq<real>, yp1: real, ypn: real, z: seq<real>)
    requires Increasing(x) && 2 <= |x| == |y| == |z|
    requires z[|x| - 2] == Line(Eliminated(x, y, yp1, |x| - 2), z[|x| - 1])
    ensures EndOf(x, y, ypn, z) <==> z[|x| - 1] == LastValue(x, y, yp1, ypn)
  {
    var n := |x|;
    assert x[n - 2] < x[n - 1];
    var (c, u) := Eliminated(x, y, yp1, n - 2);
    hide Eliminated, Chord;
    if ypn > FREE_END {
      FreeEnd(c, u);
    } else {
      var s := Over(ypn - Chord(x, y, n - 2), x[n - 1] - x[n - 2]);
      EndAlgebra(c, u, 3.0 * s, z[n - 2], z[n - 1]);
    }
  }

  lemma FreeEnd(c: real, u: real)
    requires -1.0 < c <= 0.0
    ensures LastOf(0.0, c, u, 0.0) == 0.0
  {
  }

  /** Elimination and back substitution find the one solution: what they give solves all equations, and
      whatever solves them is what they give. */
  lemma {:induction false} SolvedUpTo(x: seq<real>, y: seq<real>, yp1: real, z: seq<real>, k: nat)
    requires Increasing(x) && 2 <= |x| == |y| == |z| && k + 1 < |x|
    ensures (StartOf(x, y, yp1, z) && forall i :: 0 < i <= k ==> Inner(x, y, z, i)) <==>
      forall i :: 0 <= i <= k ==> z[i] == Line(Eliminated(x, y, yp1, i), z[i + 1])
  {
    hide StartOf, Inner, Eliminated;
    if k == 0 {
      StartSteps(x, y, yp1, z);
    } else {
      SolvedUpTo(x, y, yp1, z, k - 1);
      if z[k - 1] == Line(Eliminated(x, y, yp1, k - 1), z[k]) {
        KnotSteps(x, y, yp1, z, k);
      }
    }
  }

  lemma SolvesIffSubstituted(x: seq<real>, y: seq<real>, yp1: real, ypn: real, z: seq<real>)
    requires Increasing(x) && 2 <= |x| == |y| == |z|
    ensures Solves(x, y, yp1, ypn, z) <==> Substituted(x, y, yp1, ypn, z)
  {
    hide StartOf, EndOf, Inner, Eliminated, LastValue;
    SolvedUpTo(x, y, yp1, z, |x| - 2);
    if z[|x| - 2] == Line(Eliminated(x, y, yp1, |x| - 2), z[|x| - 1]) {
      EndSteps(x, y, yp1, ypn, z);
    }
  }

  lemma {:induction false} SameFromTheEnd(x: seq<real>, y: seq<real>, yp1: real, ypn: real, z: seq<real>,
                                          z': seq<real>, k: nat)
    requires Increasing(x) && 2 <= |x| == |y| == |z| == |z'| && k < |x|
    requires Substituted(x, y, yp1, ypn, z) && Substituted(x, y, yp1, ypn, z')
    ensures forall i :: |x| - 1 - k <= i < |x| ==> z[i] == z'[i]
  {
    hide Eliminated, LastValue;
    if k > 0 {
      SameFromTheEnd(x, y, yp1, ypn, z, z', k - 1);
      var i := |x| - 1 - k;
      assert z[i + 1] == z'[i + 1] && z[i] == z'[i];
    }
  }

  lemma OneSolution(x: seq<real>, y: seq<real>, yp1: real, ypn: real, z: seq<real>, z': seq<real>)
    requires Increasing(x) && 2 <= |x| == |y| == |z| == |z'|
    requires Solves(x, y, yp1, ypn, z) && Solves(x, y, yp1, ypn, z')
    ensures z == z'
  {
    hide Solves, Substituted;
    SolvesIffSubstituted(x, y, yp1, ypn, z);
    SolvesIffSubstituted(x, y, yp1, ypn, z');
    SameFromTheEnd(x, y, yp1, ypn, z, z', |x| - 1);
  }

  lemma Tripled(v: real, h: real)
    requires h > 0.0
    ensures Product(Over(3.0, h), v) == 3.0 * Over(v, h)
  {
    var a, b := Over(3.0, h), Over(v, h);
    Assoc(a, b, h);
    Assoc(a, h, b);
    hide Over;
    assert a * v == a * (b * h) == (a * h) * b;
  }

  lemma ChordRead(x: array<real>, y: array<real>, n: nat, i: nat)
    requires n <= x.Length && n <= y.Length && Increasing(x[..n]) && i + 1 < n
    ensures x[i] < x[i + 1] && Chord(x[..n], y[..n], i) == Over(y[i + 1] - y[i], x[i + 1] - x[i])
  {
    assert x[..n][i] < x[..n][i + 1];
  }

  lemma KnotRead(x: array<real>, y: array<real>, n: nat, i: nat)
    requires n <= x.Length && n <= y.Length && Increasing(x[..n]) && 0 < i && i + 1 < n
    ensures x[i - 1] < x[i] < x[i + 1] && Sig(x[..n], i) == Over(x[i] - x[i - 1], x[i + 1] - x[i - 1])
    ensures Turn(x[..n], y[..n], i) ==
      Over(6.0 * (Over(y[i + 1] - y[i], x[i + 1] - x[i]) - Over(y[i] - y[i - 1], x[i] - x[i - 1])), x[i + 1] - x[i - 1])
  {
    ChordRead(x, y, n, i);
    ChordRead(x, y, n, i - 1);
    hide Chord, Over;
  }

  lemma EliminateKnotIs(sig: real, c: real, u: real, t: real)
    requires 0.0 < sig < 1.0 && -1.0 < c <= 0.0
    ensures var p := sig * c + 2.0;
      p > 1.0 && EliminateKnot(sig, c, u, t) == (Over(sig - 1.0, p), Over(t - sig * u, p))
  {
    PivotBounds(sig, c);
  }

  /** One knot of the elimination. */
  method EliminateAt(x: array<real>, y: array<real>, n: nat, i: nat, c: real, v: real, ghost yp1: real)
    returns (c': real, u': real)
    requires n <= x.Length && n <= y.Length && 0 < i < n - 1 && Increasing(x[..n])
    requires (c, v) == Eliminated(x[..n], y[..n], yp1, i - 1)
    ensures (c', u') == Eliminated(x[..n], y[..n], yp1, i)
  {
    hide *;
    KnotRead(x, y, n, i);
    var sig := Over(x[i] - x[i - 1], x[i + 1] - x[i - 1]);
    var turn := Over(6.0 * (Over(y[i + 1] - y[i], x[i + 1] - x[i]) - Over(y[i] - y[i - 1], x[i] - x[i - 1])),
      x[i + 1] - x[i - 1]);
    EliminateKnotIs(sig, c, v, turn);
    var p := sig * c + 2.0;
    c' := Over(sig - 1.0, p);
    u' := Over(turn - sig * v, p);
    EliminatedKnot(x[..n], y[..n], yp1, i);
  }

  lemma FirstKnot(x: seq<real>, y: seq<real>, yp1: real)
    requires Increasing(x) && 2 <= |x| == |y|
    ensures x[0] < x[1]
    ensures Eliminated(x, y, yp1, 0) ==
      if yp1 > FREE_START then (0.0, 0.0) else (-0.5, Product(Over(3.0, x[1] - x[0]), Chord(x, y, 0) - yp1))
  {
    assert x[0] < x[1];
    hide Chord, Product, Over;
    Tripled(Chord(x, y, 0) - yp1, x[1] - x[0]);
  }

  lemma LastKnot(x: seq<real>, y: seq<real>, yp1: real, ypn: real)
    requires Increasing(x) && 2 <= |x| == |y|
    ensures var n := |x|;
      x[n - 2] < x[n - 1] &&
      var (c, u) := Eliminated(x, y, yp1, n - 2);
      var q := if ypn > FREE_END then 0.0 else 0.5;
      var r := if ypn > FREE_END then 0.0 else Product(Over(3.0, x[n - 1] - x[n - 2]), ypn - Chord(x, y, n - 2));
      LastValue(x, y, yp1, ypn) == LastOf(q, c, u, r)
  {
    var n := |x|;
    assert x[n - 2] < x[n - 1];
    hide Chord, Eliminated, Product, Over;
    Tripled(ypn - Chord(x, y, n - 2), x[n - 1] - x[n - 2]);
  }

  /** The way down: the coefficients in y2, the rest in u. */
  method Eliminate(x: array<real>, y: array<real>, n: nat, yp1: real, y2: array<real>, u: array<real>)
    requires 2 <= n <= x.Length && n <= y.Length && n <= y2.Length && n == u.Length && Increasing(x[..n])
    requires y2 != x && y2 != y && u != x && u != y && u != y2
    modifies y2, u
    ensures forall j :: 0 <= j < n - 1 ==> (y2[j], u[j]) == Eliminated(x[..n], y[..n], yp1, j)
    ensures forall i :: n <= i < y2.Length ==> y2[i] == old(y2[i])
  {
    hide *;
    ghost var xs, ys := x[..n], y[..n];
    FirstKnot(xs, ys, yp1);
    ChordRead(x, y, n, 0);
    if yp1 > FREE_START {
      y2[0] := 0.0;
      u[0] := 0.0;
    } else {
      y2[0] := -0.5;
      u[0] := Product(Over(3.0, x[1] - x[0]), Over(y[1] - y[0], x[1] - x[0]) - yp1);
    }
    for i := 1 to n - 1
      invariant forall j :: 0 <= j < i ==> (y2[j], u[j]) == Eliminated(xs, ys, yp1, j)
      invariant forall j :: n <= j < y2.Length ==> y2[j] == old(y2[j])
      invariant x[..n] == xs && y[..n] == ys
    {
      var c, v := EliminateAt(x, y, n, i, y2[i - 1], u[i - 1], yp1);
      y2[i], u[i] := c, v;
    }
  }

  lemma SubstitutedFrom(x: seq<real>, y: seq<real>, yp1: real, ypn: real, z: seq<real>)
    requires Increasing(x) && 2 <= |x| == |y| == |z| && z[|x| - 1] == LastValue(x, y, yp1, ypn)
    requires forall i :: 0 <= i < |x| - 1 ==> z[i] == Line(Eliminated(x, y, yp1, i), z[i + 1])
    ensures Substituted(x, y, yp1, ypn, z)
  {
  }

  /** The second derivatives of the spline through (x[i], y[i]), i < n, in y2. On the way down y2 holds the
      elimination coefficients; on the way back each makes room for the answer at its knot. */
  method Splined(x: array<real>, y: array<real>, n: nat, yp1: real, ypn: real, y2: array<real>)
    requires 2 <= n <= x.Length && n <= y.Length && n <= y2.Length && y2 != x && y2 != y && Increasing(x[..n])
    modifies y2
    ensures Solves(x[..n], y[..n], yp1, ypn, y2[..n])
    ensures forall i :: n <= i < y2.Length ==> y2[i] == old(y2[i])
  {
    hide *;
    ghost var xs, ys := x[..n], y[..n];
    var u := new real[n];
    Eliminate(x, y, n, yp1, y2, u);
    LastKnot(xs, ys, yp1, ypn);
    ChordRead(x, y, n, n - 2);
    var qn, un := 0.5, 0.0;
    if ypn > FREE_END {
      qn, un := 0.0, 0.0;
    } else {
      un := Product(Over(3.0, x[n - 1] - x[n - 2]), ypn - Over(y[n - 1] - y[n - 2], x[n - 1] - x[n - 2]));
    }
    y2[n - 1] := LastOf(qn, y2[n - 2], u[n - 2], un);
    var k: int := n - 2;
    while k >= 0
      invariant -1 <= k <= n - 2
      invariant forall j :: 0 <= j <= k ==> (y2[j], u[j]) == Eliminated(xs, ys, yp1, j)
      invariant forall j :: k < j < n - 1 ==> y2[j] == Line(Eliminated(xs, ys, yp1, j), y2[j + 1])
      invariant y2[n - 1] == LastValue(xs, ys, yp1, ypn) && x[..n] == xs && y[..n] == ys
      invariant forall j :: n <= j < y2.Length ==> y2[j] == old(y2[j])
    {
      y2[k] := Line((y2[k], u[k]), y2[k + 1]);
      k := k - 1;
    }
    SubstitutedFrom(xs, ys, yp1, ypn, y2[..n]);
    SolvesIffSubstituted(xs, ys, yp1, ypn, y2[..n]);
  }
}
