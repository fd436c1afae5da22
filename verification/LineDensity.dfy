/** The line density that epotkick takes from the spline, and its slope, along the bunch. */
module LineDensity {
  import opened RealAlgebra
  import opened Spline

  /** The density between knots k and k + 1, v of the way. */
  function Lambda(rho: seq<real>, sp: seq<real>, dz: real, k: nat, v: real): real
    requires k + 1 < |rho| == |sp|
  {
    var w := 1.0 - v;
    w * rho[k] + v * rho[k + 1] + ((w * w * w - w) * sp[k] + (v * v * v - v) * sp[k + 1]) * (dz * dz) / 6.0
  }

  /** Its slope. */
  function Slope(rho: seq<real>, sp: seq<real>, dz: real, k: nat, v: real): real
    requires k + 1 < |rho| == |sp| && dz > 0.0
  {
    var w := 1.0 - v;
    Over(rho[k + 1] - rho[k], dz) - ((3.0 * w * w - 1.0) * sp[k] - (3.0 * v * v - 1.0) * sp[k + 1]) * dz / 6.0
  }

  /** The knots of the solver: dz apart, knot kzc at zero. */
  function Knots(n: nat, kzc: int, dz: real): (x: seq<real>)
    ensures |x| == n
  {
    seq(n, i => (i - kzc) as real * dz)
  }

  lemma KnotsIncrease(n: nat, kzc: int, dz: real)
    requires dz > 0.0
    ensures Increasing(Knots(n, kzc, dz))
    ensures forall i :: 0 < i < n ==> Knots(n, kzc, dz)[i] - Knots(n, kzc, dz)[i - 1] == dz
  {
    var x := Knots(n, kzc, dz);
    forall i | 0 < i < n ensures x[i] - x[i - 1] == dz {
      assert (i - kzc) as real == (i - 1 - kzc) as real + 1.0;
      Spread(dz, (i - 1 - kzc) as real, 1.0);
    }
  }

  /** On both sides of a knot the density is the charge there. */
  lemma ValuesMeet(rho: seq<real>, sp: seq<real>, dz: real, k: nat)
    requires k + 1 < |rho| == |sp|
    ensures Lambda(rho, sp, dz, k, 1.0) == rho[k + 1] && Lambda(rho, sp, dz, k, 0.0) == rho[k]
  {
    Vanishes(sp[k], sp[k + 1], dz * dz);
  }

  lemma Vanishes(a: real, b: real, d: real)
    ensures (0.0 * a + 0.0 * b) * d / 6.0 == 0.0
  {
  }

  /** The slope at both ends of a step. */
  lemma SlopeAtEnds(rho: seq<real>, sp: seq<real>, dz: real, k: nat)
    requires k + 1 < |rho| == |sp| && dz > 0.0
    ensures Slope(rho, sp, dz, k, 1.0) == Over(rho[k + 1] - rho[k], dz) + (sp[k] + 2.0 * sp[k + 1]) * dz / 6.0
    ensures Slope(rho, sp, dz, k, 0.0) == Over(rho[k + 1] - rho[k], dz) - (2.0 * sp[k] + sp[k + 1]) * dz / 6.0
  {
    Spread(dz, 0.0 - sp[k], 2.0 * sp[k + 1]);
    Spread(dz, 2.0 * sp[k], 0.0 - sp[k + 1]);
    Spread(dz, sp[k], 2.0 * sp[k + 1]);
    Spread(dz, 2.0 * sp[k], sp[k + 1]);
    hide Over;
    assert ((3.0 * 0.0 * 0.0 - 1.0) * sp[k] - (3.0 * 1.0 * 1.0 - 1.0) * sp[k + 1]) == 0.0 - sp[k] - 2.0 * sp[k + 1];
    assert ((3.0 * 1.0 * 1.0 - 1.0) * sp[k] - (3.0 * 0.0 * 0.0 - 1.0) * sp[k + 1]) == 2.0 * sp[k] + sp[k + 1];
  }

  /** At an inner knot of equal steps the spline's equation says that the slopes on both sides meet. */
  lemma MeetAlgebra(h: real, a: real, b: real, c: real, s: real, t: real)
    requires h > 0.0 && Equation(0.5, a, b, c) == Over(6.0 * (t - s), h + h)
    ensures s + (a + 2.0 * b) * h / 6.0 == t - (2.0 * b + c) * h / 6.0
  {
    var q := Over(6.0 * (t - s), h + h);
    assert q * (h + h) == 6.0 * (t - s);
    hide Over;
    var e := 0.5 * a + 2.0 * b + 0.5 * c;
    assert q == e;
    Spread(e, h, h);
    Spread(h, 0.5 * a, 2.0 * b + 0.5 * c);
    Spread(h, 2.0 * b, 0.5 * c);
    Spread(h, a, 2.0 * b);
    Spread(h, 2.0 * b, c);
  }

  /** The slope has no jump at the knots 1 to n - 2 of the spline. */
  lemma SlopesMeet(rho: seq<real>, sp: seq<real>, n: nat, kzc: int, dz: real, yp1: real, ypn: real, i: nat)
    requires dz > 0.0 && 2 <= n <= |rho| == |sp| && 0 < i < n - 1 && Increasing(Knots(n, kzc, dz))
    requires Solves(Knots(n, kzc, dz), rho[..n], yp1, ypn, sp[..n])
    ensures Slope(rho, sp, dz, i - 1, 1.0) == Slope(rho, sp, dz, i, 0.0)
  {
    var x, y, z := Knots(n, kzc, dz), rho[..n], sp[..n];
    KnotsIncrease(n, kzc, dz);
    assert Inner(x, y, z, i);
    assert x[i] - x[i - 1] == dz && x[i + 1] - x[i] == dz;
    assert Sig(x, i) == 0.5 by {
      IsQuotient(dz, dz + dz, 0.5);
    }
    assert Chord(x, y, i) == Over(rho[i + 1] - rho[i], dz) && Chord(x, y, i - 1) == Over(rho[i] - rho[i - 1], dz);
    hide Slope, Over, Equation, Chord, Sig;
    MeetAlgebra(dz, sp[i - 1], sp[i], sp[i + 1], Over(rho[i] - rho[i - 1], dz), Over(rho[i + 1] - rho[i], dz));
    SlopeAtEnds(rho, sp, dz, i - 1);
    SlopeAtEnds(rho, sp, dz, i);
  }

  /** At both ends the density has the slope that the spline was given, or no curvature when that is beyond the
      bound, 0.99e33 at the start and 0.99e30 at the end. */
  lemma SlopesAtEnds(rho: seq<real>, sp: seq<real>, n: nat, kzc: int, dz: real, yp1: real, ypn: real)
    requires dz > 0.0 && 2 <= n <= |rho| == |sp| && Increasing(Knots(n, kzc, dz))
    requires Solves(Knots(n, kzc, dz), rho[..n], yp1, ypn, sp[..n])
    ensures if yp1 > 990000000000000000000000000000000.0 then sp[0] == 0.0 else Slope(rho, sp, dz, 0, 0.0) == yp1
    ensures if ypn > 990000000000000000000000000000.0 then sp[n - 1] == 0.0 else Slope(rho, sp, dz, n - 2, 1.0) == ypn
  {
    EndChords(rho, n, kzc, dz);
    SlopeAtEnds(rho, sp, dz, 0);
    SlopeAtEnds(rho, sp, dz, n - 2);
    hide Slope, Over, Chord, Increasing, Knots;
    if yp1 <= 990000000000000000000000000000000.0 {
      EndMeets(dz, 2.0 * sp[0] + sp[1], Over(rho[1] - rho[0], dz), yp1);
    }
    if ypn <= 990000000000000000000000000000.0 {
      EndMeets(dz, sp[n - 2] + 2.0 * sp[n - 1], ypn, Over(rho[n - 1] - rho[n - 2], dz));
    }
  }

  /** The solver asks for slope zero at both ends, and gets it. */
  lemma FlatEnds(rho: seq<real>, sp: seq<real>, n: nat, kzc: int, dz: real)
    requires dz > 0.0 && 2 <= n <= |rho| == |sp| && Increasing(Knots(n, kzc, dz))
    requires Solves(Knots(n, kzc, dz), rho[..n], 0.0, 0.0, sp[..n])
    ensures Slope(rho, sp, dz, 0, 0.0) == 0.0 && Slope(rho, sp, dz, n - 2, 1.0) == 0.0
  {
    SlopesAtEnds(rho, sp, n, kzc, dz, 0.0, 0.0);
  }

  lemma EndChords(rho: seq<real>, n: nat, kzc: int, dz: real)
    requires dz > 0.0 && 2 <= n <= |rho| && Increasing(Knots(n, kzc, dz))
    ensures var x, y := Knots(n, kzc, dz), rho[..n];
      x[1] - x[0] == dz && x[n - 1] - x[n - 2] == dz && Chord(x, y, 0) == Over(rho[1] - rho[0], dz) &&
      Chord(x, y, n - 2) == Over(rho[n - 1] - rho[n - 2], dz)
  {
    KnotsIncrease(n, kzc, dz);
    assert Knots(n, kzc, dz)[n - 2 + 1] - Knots(n, kzc, dz)[n - 2] == dz;
    hide Over;
  }

  lemma EndMeets(h: real, e: real, s: real, t: real)
    requires h > 0.0 && e == 6.0 * Over(s - t, h)
    ensures s - e * h / 6.0 == t && t + e * h / 6.0 == s
  {
    var q := Over(s - t, h);
    assert q * h == s - t;
    Assoc(6.0, q, h);
  }

  /** What is left of a cube after its tangent. */
  lemma CubeTangent(w: real, h: real)
    ensures (w + h) * (w + h) * (w + h) - w * w * w - 3.0 * w * w * h == h * h * (3.0 * w + h)
  {
    var a, b, c := w * w, w * h, h * h;
    assert (w + h) * (w + h) == a + 2.0 * b + c;
    Spread(w + h, a + 2.0 * b, c);
    Spread(w + h, a, 2.0 * b);
    Assoc(w, h, h);
    Assoc(w, w, h);
    Assoc(h, w, h);
    Assoc(h, h, w);
    Spread(c, 3.0 * w, h);
  }

  function Cubic(w: real): real
  {
    w * w * w - w
  }

  function CubicSlope(w: real): real
  {
    3.0 * w * w - 1.0
  }

  lemma CubicMoves(w: real, h: real)
    ensures Cubic(w + h) == Cubic(w) + h * CubicSlope(w) + h * h * (3.0 * w + h)
  {
    CubeTangent(w, h);
    Spread(h, 3.0 * w * w, 1.0);
    assert h * (3.0 * w * w) == 3.0 * w * w * h;
  }

  lemma LambdaIs(rho: seq<real>, sp: seq<real>, dz: real, k: nat, v: real)
    requires k + 1 < |rho| == |sp| && dz > 0.0
    ensures Lambda(rho, sp, dz, k, v) ==
      (1.0 - v) * rho[k] + v * rho[k + 1] + (Cubic(1.0 - v) * sp[k] + Cubic(v) * sp[k + 1]) * (dz * dz) / 6.0
    ensures dz * Slope(rho, sp, dz, k, v) ==
      rho[k + 1] - rho[k] - (CubicSlope(1.0 - v) * sp[k] - CubicSlope(v) * sp[k + 1]) * (dz * dz) / 6.0
  {
    var q, g := Over(rho[k + 1] - rho[k], dz), CubicSlope(1.0 - v) * sp[k] - CubicSlope(v) * sp[k + 1];
    hide Over, Cubic, CubicSlope;
    Spread(dz, q, g * dz / 6.0);
    Assoc(g, dz, dz);
    assert dz * (g * dz / 6.0) == (g * dz) * dz / 6.0;
    assert Slope(rho, sp, dz, k, v) == q - g * dz / 6.0 by {
      SlopeParts(rho, sp, dz, k, v);
    }
    assert Lambda(rho, sp, dz, k, v) ==
      (1.0 - v) * rho[k] + v * rho[k + 1] + (Cubic(1.0 - v) * sp[k] + Cubic(v) * sp[k + 1]) * (dz * dz) / 6.0 by {
      LambdaParts(rho, sp, dz, k, v);
    }
  }

  lemma SlopeParts(rho: seq<real>, sp: seq<real>, dz: real, k: nat, v: real)
    requires k + 1 < |rho| == |sp| && dz > 0.0
    ensures Slope(rho, sp, dz, k, v) ==
      Over(rho[k + 1] - rho[k], dz) - (CubicSlope(1.0 - v) * sp[k] - CubicSlope(v) * sp[k + 1]) * dz / 6.0
  {
    hide Over;
  }

  lemma LambdaParts(rho: seq<real>, sp: seq<real>, dz: real, k: nat, v: real)
    requires k + 1 < |rho| == |sp|
    ensures Lambda(rho, sp, dz, k, v) ==
      (1.0 - v) * rho[k] + v * rho[k + 1] + (Cubic(1.0 - v) * sp[k] + Cubic(v) * sp[k + 1]) * (dz * dz) / 6.0
  {
  }

  /** Density, slope and rest with the cubics and their slopes as plain numbers. */
  function LambdaOf(r: real, r': real, a: real, b: real, w: real, v: real, d: real, cw: real, cv: real): real
  {
    w * r + v * r' + (cw * a + cv * b) * d / 6.0
  }

  function SlopeOf(r: real, r': real, a: real, b: real, d: real, sw: real, sv: real): real
  {
    r' - r - (sw * a - sv * b) * d / 6.0
  }

  function RestOf(a: real, b: real, w: real, v: real, h: real, d: real): real
  {
    ((3.0 * w - h) * a + (3.0 * v + h) * b) * d / 6.0
  }

  function Moved(c: real, s: real, w: real, h: real): real
  {
    c + h * s + h * h * (3.0 * w + h)
  }

  /** The slope is the derivative of the density: a step of h moves the density by the slope and a rest that
      is a multiple of h^2. */
  lemma SlopeIsDerivative(rho: seq<real>, sp: seq<real>, dz: real, k: nat, v: real, h: real)
    requires k + 1 < |rho| == |sp| && dz > 0.0
    ensures Lambda(rho, sp, dz, k, v + h) == Lambda(rho, sp, dz, k, v) + h * (dz * Slope(rho, sp, dz, k, v)) +
      h * h * (((3.0 * (1.0 - v) - h) * sp[k] + (3.0 * v + h) * sp[k + 1]) * (dz * dz) / 6.0)
  {
    hide *;
    var w, d := 1.0 - v, dz * dz;
    var r, r', a, b := rho[k], rho[k + 1], sp[k], sp[k + 1];
    LambdaNamed(rho, sp, dz, k, v, w);
    LambdaNamed(rho, sp, dz, k, v + h, w + (0.0 - h));
    CubicNamed(v, h);
    CubicNamed(w, 0.0 - h);
    DerivativeAlgebra(r, r', a, b, w, v, h, d, Cubic(w), Cubic(v), CubicSlope(w), CubicSlope(v));
    RestNamed(a, b, w, v, h, d);
  }

  lemma RestNamed(a: real, b: real, w: real, v: real, h: real, d: real)
    requires w == 1.0 - v
    ensures RestOf(a, b, w, v, h, d) == ((3.0 * (1.0 - v) - h) * a + (3.0 * v + h) * b) * d / 6.0
  {
  }

  lemma LambdaNamed(rho: seq<real>, sp: seq<real>, dz: real, k: nat, v: real, w: real)
    requires k + 1 < |rho| == |sp| && dz > 0.0 && w == 1.0 - v
    ensures Lambda(rho, sp, dz, k, v) ==
      LambdaOf(rho[k], rho[k + 1], sp[k], sp[k + 1], w, v, dz * dz, Cubic(w), Cubic(v))
    ensures dz * Slope(rho, sp, dz, k, v) ==
      SlopeOf(rho[k], rho[k + 1], sp[k], sp[k + 1], dz * dz, CubicSlope(w), CubicSlope(v))
  {
    hide Lambda, Slope, Cubic, CubicSlope;
    LambdaIs(rho, sp, dz, k, v);
  }

  lemma CubicNamed(w: real, h: real)
    ensures Cubic(w + h) == Moved(Cubic(w), CubicSlope(w), w, h)
  {
    hide Cubic, CubicSlope;
    CubicMoves(w, h);
  }

  lemma DerivativeAlgebra(r: real, r': real, a: real, b: real, w: real, v: real, h: real, d: real,
                          cw: real, cv: real, sw: real, sv: real)
    ensures var g := 0.0 - h;
      LambdaOf(r, r', a, b, w + g, v + h, d, Moved(cw, sw, w, g), Moved(cv, sv, v, h)) ==
      LambdaOf(r, r', a, b, w, v, d, cw, cv) + h * SlopeOf(r, r', a, b, d, sw, sv) + h * h * RestOf(a, b, w, v, h, d)
  {
    var g := 0.0 - h;
    DerivativePlain(r, r', a, b, w, v, h, d, cw, cv, sw, sv, g, Moved(cw, sw, w, g), Moved(cv, sv, v, h), w + g, v + h);
  }

  lemma DerivativePlain(r: real, r': real, a: real, b: real, w: real, v: real, h: real, d: real, cw: real, cv: real,
                        sw: real, sv: real, g: real, x: real, y: real, w': real, v': real)
    requires g == 0.0 - h && x == Moved(cw, sw, w, g) && y == Moved(cv, sv, v, h) && w' == w + g && v' == v + h
    ensures LambdaOf(r, r', a, b, w', v', d, x, y) ==
      LambdaOf(r, r', a, b, w, v, d, cw, cv) + h * SlopeOf(r, r', a, b, d, sw, sv) + h * h * RestOf(a, b, w, v, h, d)
  {
    hide *;
    var A, B := a * d / 6.0, b * d / 6.0;
    var u, t := 3.0 * w - h, 3.0 * v + h;
    MovedTerm(x, cw, sw, w, g, u, A);
    MovedTerm(y, cv, sv, v, h, t, B);
    Parts(r, r', a, b, w, v, h, d, cw, cv, sw, sv, A, B, u, t);
    PartsMoved(r, r', a, b, w', v', d, x, y, A, B);
    DerivativeSum(w, v, h, r, r', Product(cw, A), Product(cv, B), Product(sw, A), Product(sv, B), Product(u, A),
      Product(t, B), Product(x, A), Product(y, B), g, w', v', LambdaOf(r, r', a, b, w', v', d, x, y),
      LambdaOf(r, r', a, b, w, v, d, cw, cv), SlopeOf(r, r', a, b, d, sw, sv), RestOf(a, b, w, v, h, d));
  }

  lemma MovedTerm(x: real, c: real, s: real, w: real, g: real, u: real, A: real)
    requires x == Moved(c, s, w, g) && u == 3.0 * w + g
    ensures Product(x, A) == Product(c, A) + g * Product(s, A) + g * g * Product(u, A)
  {
    DerivativeTerm(c, s, u, g, A);
  }

  lemma PartsMoved(r: real, r': real, a: real, b: real, w: real, v: real, d: real, x: real, y: real, A: real, B: real)
    requires A == a * d / 6.0 && B == b * d / 6.0
    ensures LambdaOf(r, r', a, b, w, v, d, x, y) == w * r + v * r' + (Product(x, A) + Product(y, B))
  {
    Shared(x, a, y, b, d);
  }

  lemma Parts(r: real, r': real, a: real, b: real, w: real, v: real, h: real, d: real, cw: real, cv: real,
              sw: real, sv: real, A: real, B: real, u: real, t: real)
    requires A == a * d / 6.0 && B == b * d / 6.0 && u == 3.0 * w - h && t == 3.0 * v + h
    ensures LambdaOf(r, r', a, b, w, v, d, cw, cv) == w * r + v * r' + (Product(cw, A) + Product(cv, B))
    ensures SlopeOf(r, r', a, b, d, sw, sv) == r' - r - (Product(sw, A) - Product(sv, B))
    ensures RestOf(a, b, w, v, h, d) == Product(u, A) + Product(t, B)
  {
    Shared(cw, a, cv, b, d);
    Shared(sw, a, 0.0 - sv, b, d);
    Shared(u, a, t, b, d);
  }

  lemma DerivativeSum(w: real, v: real, h: real, r: real, r': real, cA: real, cB: real, sA: real, sB: real, uA: real,
                      uB: real, xA: real, yB: real, g: real, w': real, v': real, l: real, l0: real, s: real, rest: real)
    requires g == 0.0 - h && xA == cA + g * sA + g * g * uA && yB == cB + h * sB + h * h * uB
    requires w' == w + g && v' == v + h && l == w' * r + v' * r' + (xA + yB) && l0 == w * r + v * r' + (cA + cB)
    requires s == r' - r - (sA - sB) && rest == uA + uB
    ensures l == l0 + h * s + h * h * rest
  {
  }

  /** (c + g s + g^2 u) A for a step g of either sign. */
  lemma DerivativeTerm(c: real, s: real, u: real, h: real, A: real)
    ensures (c + h * s + h * h * u) * A == c * A + h * (s * A) + h * h * (u * A)
  {
    Spread(A, c + h * s, h * h * u);
    Spread(A, c, h * s);
    Assoc(h, s, A);
    Assoc(h * h, u, A);
  }

  lemma Shared(x: real, a: real, y: real, b: real, d: real)
    ensures (x * a + y * b) * d / 6.0 == x * (a * d / 6.0) + y * (b * d / 6.0)
  {
    Spread(d, x * a, y * b);
    Assoc(x, a, d);
    Assoc(y, b, d);
  }
}
