/** rhocal: the charge of the particles on a grid across the beam, and on a line along it. */
module ChargeGrid {
  import opened RealAlgebra
  import Words

  function Abs(r: real): real
  {
    if r < 0.0 then -r else r
  }

  /** C's conversion to int. */
  function Trunc(r: real): int
  {
    if r >= 0.0 then r.Floor else 0 - (0.0 - r).Floor
  }

  /** The charges weighted by f, over the first n places. */
  function Total(a: seq<real>, f: seq<real>, n: nat): real
    requires n <= |a| == |f|
  {
    if n == 0 then 0.0 else Total(a, f, n - 1) + Product(a[n - 1], f[n - 1])
  }

  lemma Weighted(a: real, d: real, f: real)
    ensures Product(a + d, f) == Product(a, f) + Product(d, f)
  {
  }

  /** One more charge d at place k. */
  lemma {:induction false} Deposited(a: seq<real>, f: seq<real>, k: nat, d: real, n: nat)
    requires n <= |a| == |f| && k < |a|
    ensures Total(a[k := a[k] + d], f, n) == Total(a, f, n) + if k < n then Product(d, f[k]) else 0.0
  {
    hide Product;
    if n > 0 {
      Deposited(a, f, k, d, n - 1);
      Weighted(a[k], d, f[k]);
    }
  }

  lemma {:induction false} NoCharge(a: seq<real>, f: seq<real>, n: nat)
    requires n <= |a| == |f| && forall k :: 0 <= k < |a| ==> a[k] == 0.0
    ensures Total(a, f, n) == 0.0
  {
    if n > 0 {
      NoCharge(a, f, n - 1);
    }
  }

  function Ones(n: nat): (f: seq<real>)
    ensures |f| == n
  {
    seq(n, k => 1.0)
  }

  /** A grid of n cells of width d, with its middle at zero. */
  datatype Axis = Axis(n: nat, d: real) {
    function Centre(): int {
      n / 2
    }

    /** The particles up to one cell inside the grid's ends count. */
    function Edge(): real {
      d * ((Centre() - 1) as real)
    }

    predicate Inside(x: real) {
      Abs(x) <= Edge()
    }

    function Place(i: int): real {
      Product((i - Centre()) as real, d)
    }

    /** The cell of a particle, and how far into it the particle is. */
    function Cell(x: real): int
      requires d > 0.0
    {
      Trunc(Over(x + Product(Centre() as real, d), d))
    }

    function Offset(x: real): real
      requires d > 0.0
    {
      Over(x - Place(Cell(x)), d)
    }

    /** How many cells a particle is beyond place i. */
    function Away(x: real, i: int): real
      requires d > 0.0
    {
      Over(x - Place(i), d)
    }

    /** The particles that count lie between the first place inside the grid and the last one inside its even part. */
    lemma Window(x: real)
      requires d > 0.0
      ensures Inside(x) <==> Place(1) <= x <= Place(2 * (n / 2) - 1)
    {
      var c := (n / 2) as real;
      assert (1 - Centre()) as real == 1.0 - c && (2 * (n / 2) - 1 - Centre()) as real == c - 1.0;
      Mirrored(c - 1.0, d);
    }

    lemma InGrid(x: real)
      requires d > 0.0 && Inside(x)
      ensures 1 <= Cell(x) && Cell(x) + 1 <= n
      ensures 0.0 <= Offset(x) < 1.0 && x == Place(Cell(x)) + Product(Offset(x), d)
      ensures Place(Cell(x) + 1) == Place(Cell(x)) + d
    {
      var c := Centre() as real;
      var t := Over(x + Product(c, d), d);
      hide Over, Product;
      EdgeAlgebra(x, c, d, t);
      var i := Trunc(t);
      assert (i - Centre()) as real == i as real - c;
      assert (i + 1 - Centre()) as real == i as real - c + 1.0;
      OffsetAlgebra(x, c, d, t, i as real, Offset(x), Place(i));
      PlaceAlgebra(i as real - c, d);
    }
  }

  lemma Mirrored(j: real, d: real)
    ensures Product(0.0 - j, d) == 0.0 - Product(j, d) && Product(j, d) == d * j
  {
  }

  lemma EdgeAlgebra(x: real, c: real, d: real, t: real)
    requires d > 0.0 && t == Over(x + Product(c, d), d) && Abs(x) <= d * (c - 1.0)
    ensures 1.0 <= t <= 2.0 * c - 1.0
  {
    var e := d * (c - 1.0);
    assert e == c * d - d;
    var l, h := t - 1.0, 2.0 * c - 1.0 - t;
    assert l * d == t * d - d >= 0.0;
    assert h * d == 2.0 * (c * d) - d - t * d >= 0.0;
    NotNegative(l, d);
    NotNegative(h, d);
  }

  lemma OffsetAlgebra(x: real, c: real, d: real, t: real, i: real, o: real, p: real)
    requires d > 0.0 && t == Over(x + Product(c, d), d) && p == Product(i - c, d) && o == Over(x - p, d)
    ensures o == t - i && x == p + Product(o, d)
  {
    assert o * d == x - p;
    assert (t - i) * d == t * d - i * d;
    assert p == i * d - c * d;
    SameFactor(o, t - i, d);
  }

  lemma SameFactor(a: real, b: real, d: real)
    requires d > 0.0 && a * d == b * d
    ensures a == b
  {
    assert (a - b) * d == 0.0;
  }

  lemma PlaceAlgebra(j: real, d: real)
    ensures Product(j + 1.0, d) == Product(j, d) + d
  {
  }

  /** The number of particles in the window, and the sums of their coordinates. */
  function Count(ax: Axis, ay: Axis, x: seq<real>, y: seq<real>, n: nat): real
    requires n <= |x| && n <= |y|
  {
    if n == 0 then 0.0 else Count(ax, ay, x, y, n - 1) + if ax.Inside(x[n - 1]) && ay.Inside(y[n - 1]) then 1.0 else 0.0
  }

  function SumOf(ax: Axis, ay: Axis, x: seq<real>, y: seq<real>, v: seq<real>, n: nat): real
    requires n <= |x| && n <= |y| && n <= |v|
  {
    if n == 0 then 0.0
    else SumOf(ax, ay, x, y, v, n - 1) + (if ax.Inside(x[n - 1]) && ay.Inside(y[n - 1]) then v[n - 1] else 0.0)
  }

  /** Those that are also in the window along the beam. */
  function CountAlong(ax: Axis, ay: Axis, az: Axis, x: seq<real>, y: seq<real>, z: seq<real>, n: nat): real
    requires n <= |x| && n <= |y| && n <= |z|
  {
    if n == 0 then 0.0
    else
      CountAlong(ax, ay, az, x, y, z, n - 1) +
      (if ax.Inside(x[n - 1]) && ay.Inside(y[n - 1]) && az.Inside(z[n - 1]) then 1.0 else 0.0)
  }

  /** The coordinates of the places of a grid that is stored row by row. */
  function Rows(ax: Axis, ay: Axis): (f: seq<real>)
    ensures |f| == (ax.n + 1) * (ay.n + 1)
  {
    seq((ax.n + 1) * (ay.n + 1), k => ax.Place(k / (ay.n + 1)))
  }

  function Columns(ax: Axis, ay: Axis): (f: seq<real>)
    ensures |f| == (ax.n + 1) * (ay.n + 1)
  {
    seq((ax.n + 1) * (ay.n + 1), k => ay.Place(k % (ay.n + 1)))
  }

  /** The coordinates of the places along the beam. */
  function Line(az: Axis): (f: seq<real>)
    ensures |f| == az.n + 1
  {
    seq(az.n + 1, k => az.Place(k))
  }

  /** How far from a particle its charge is put along the beam, in cells, when it is v cells beyond a place. */
  function Drift(v: real): real
  {
    if v < 0.5 then 0.0 - v else 1.0 - 2.0 * (1.0 - v) * (1.0 - v) - v
  }

  /** The middle of the charge put down for a particle. */
  function Middle(az: Axis, z: real): real
    requires az.d > 0.0
  {
    z + Product(Drift(az.Offset(z)), az.d)
  }

  /** The charge is put where the particle is only for particles on a place and halfway between two. */
  lemma DriftIsNone(v: real)
    requires 0.0 <= v < 1.0
    ensures Drift(v) == 0.0 <==> v == 0.0 || v == 0.5
    ensures 0.0 < v < 0.5 ==> Drift(v) < 0.0
    ensures 0.5 < v ==> Drift(v) > 0.0
  {
    if v >= 0.5 {
      assert Drift(v) == (1.0 - v) * (2.0 * v - 1.0);
      if v > 0.5 {
        assert (1.0 - v) * (2.0 * v - 1.0) > 0.0;
      }
    }
  }

  lemma MiddleIs(az: Axis, z: real)
    requires az.d > 0.0 && 0.0 <= az.Offset(z) < 1.0
    ensures Middle(az, z) == z <==> az.Offset(z) == 0.0 || az.Offset(z) == 0.5
  {
    DriftIsNone(az.Offset(z));
    hide Drift, Axis.Offset;
    if Product(Drift(az.Offset(z)), az.d) == 0.0 {
      NoFactor(az.d, Drift(az.Offset(z)));
    }
  }

  function MiddlesAlong(ax: Axis, ay: Axis, az: Axis, x: seq<real>, y: seq<real>, z: seq<real>, n: nat): real
    requires n <= |x| && n <= |y| && n <= |z| && az.d > 0.0
  {
    if n == 0 then 0.0
    else
      MiddlesAlong(ax, ay, az, x, y, z, n - 1) +
      (if ax.Inside(x[n - 1]) && ay.Inside(y[n - 1]) && az.Inside(z[n - 1]) then Middle(az, z[n - 1]) else 0.0)
  }

  /** Place (i, j) of the grid. */
  lemma At(ax: Axis, ay: Axis, i: nat, j: nat, k: nat)
    requires i <= ax.n && j <= ay.n && k == i * (ay.n + 1) + j
    ensures k < (ax.n + 1) * (ay.n + 1)
    ensures Rows(ax, ay)[k] == ax.Place(i) && Columns(ax, ay)[k] == ay.Place(j)
  {
    InsideGrid(ax.n, ay.n + 1, i, j, k);
    RowAndColumn(k, ay.n + 1, i, j);
    hide Axis.Place;
  }

  lemma InsideGrid(n: nat, m: nat, i: nat, j: nat, k: nat)
    requires i <= n && j < m && k == i * m + j
    ensures k < (n + 1) * m
  {
    Words.MulMono(m, i + 1, n + 1);
    Words.Distribute(m, i, 1);
  }

  lemma RowAndColumn(k: nat, m: nat, i: nat, j: nat)
    requires k == i * m + j && j < m
    ensures k / m == i && k % m == j
  {
    Words.QuotientIs(k, m, i, j);
  }

  /** The grid holds as many charges as counted, with the same first moments, and none is negative. */
  ghost predicate Holds(a: seq<real>, ax: Axis, ay: Axis, count: real, sx: real, sy: real)
  {
    var n := (ax.n + 1) * (ay.n + 1);
    |a| == n && (forall k :: 0 <= k < n ==> a[k] >= 0.0) &&
    Total(a, Ones(n), n) == count && Total(a, Rows(ax, ay), n) == sx && Total(a, Columns(ax, ay), n) == sy
  }

  /** As many charges as counted along the beam, with first moment sz. */
  ghost predicate HoldsAlong(a: seq<real>, az: Axis, count: real, sz: real)
  {
    |a| == az.n + 1 && (forall k :: 0 <= k < |a| ==> a[k] >= 0.0) &&
    Total(a, Ones(|a|), |a|) == count && Total(a, Line(az), |a|) == sz
  }

  /** One charge d at place k, which stands for (p, q). */
  lemma OneShare(a: seq<real>, ax: Axis, ay: Axis, count: real, sx: real, sy: real, k: nat, d: real)
    requires Holds(a, ax, ay, count, sx, sy) && k < |a| && d >= 0.0
    ensures Holds(a[k := a[k] + d], ax, ay, count + d, sx + Product(d, Rows(ax, ay)[k]),
                  sy + Product(d, Columns(ax, ay)[k]))
  {
    var n := |a|;
    assert Product(d, 1.0) == d;
    assert n == (ax.n + 1) * (ay.n + 1);
    hide Product, Total, Rows, Columns;
    Deposited(a, Ones(n), k, d, n);
    Deposited(a, Rows(ax, ay), k, d, n);
    Deposited(a, Columns(ax, ay), k, d, n);
  }

  lemma OneShareAlong(a: seq<real>, az: Axis, count: real, sz: real, k: nat, d: real)
    requires HoldsAlong(a, az, count, sz) && k < |a| && d >= 0.0
    ensures HoldsAlong(a[k := a[k] + d], az, count + d, sz + Product(d, az.Place(k)))
  {
    assert Product(d, 1.0) == d;
    hide Product, Total;
    Deposited(a, Ones(|a|), k, d, |a|);
    Deposited(a, Line(az), k, d, |a|);
  }

  /** Two shares of one charge, at place p and the same or the next one. */
  lemma TwoShares(s: real, r: real, v: real, z: real, p: real, d: real)
    requires s + r == 1.0 && z == p + Product(v, d)
    ensures Product(s, p) + Product(r, p) == z + Product(0.0 - v, d)
    ensures Product(s, p) + Product(r, p + d) == z + Product(r - v, d)
  {
    Spread(p, s, r);
    Spread(r, p, d);
    Spread(d, r, 0.0 - v);
    assert Product(0.0 - v, d) == 0.0 - Product(v, d);
  }

  /** The four shares of a charge add up to it, and to its place. */
  lemma FourShares(u: real, v: real, p: real, d: real, x: real)
    requires 0.0 <= u < 1.0 && 0.0 <= v < 1.0 && x == p + Product(u, d)
    ensures var a, b, c, e := Product(1.0 - u, 1.0 - v), Product(u, 1.0 - v), Product(u, v), Product(1.0 - u, v);
      a >= 0.0 && b >= 0.0 && c >= 0.0 && e >= 0.0 && a + b + c + e == 1.0 &&
      Product(a, p) + Product(b, p + d) + Product(c, p + d) + Product(e, p) == x
  {
    var a, b, c, e := Product(1.0 - u, 1.0 - v), Product(u, 1.0 - v), Product(u, v), Product(1.0 - u, v);
    ProductNotNegative(1.0 - u, 1.0 - v);
    ProductNotNegative(u, 1.0 - v);
    ProductNotNegative(u, v);
    ProductNotNegative(1.0 - u, v);
    Spread(1.0 - u, 1.0, v);
    Spread(u, 1.0, v);
    assert a + e == 1.0 - u && b + c == u;
    PlaceOfShares(a, b, c, e, u, p, d);
  }

  lemma PlaceOfShares(a: real, b: real, c: real, e: real, u: real, p: real, d: real)
    requires a + e == 1.0 - u && b + c == u
    ensures Product(a, p) + Product(b, p + d) + Product(c, p + d) + Product(e, p) == p + Product(u, d)
  {
    Spread(p, a, e);
    Spread(p + d, b, c);
    Spread(u, p, d);
    Spread(p, 1.0, u);
  }

  /** Four shares on the grid: the charge and its place. */
  lemma FourDeposits(a0: seq<real>, a1: seq<real>, a2: seq<real>, a3: seq<real>, a4: seq<real>, ax: Axis, ay: Axis,
                     count: real, sx: real, sy: real, i: nat, j: nat, k: nat, u: real, v: real, x: real, y: real)
    requires Holds(a0, ax, ay, count, sx, sy) && i + 1 <= ax.n && j + 1 <= ay.n && k == i * (ay.n + 1) + j
    requires 0.0 <= u < 1.0 && x == ax.Place(i) + Product(u, ax.d) && ax.Place(i + 1) == ax.Place(i) + ax.d
    requires 0.0 <= v < 1.0 && y == ay.Place(j) + Product(v, ay.d) && ay.Place(j + 1) == ay.Place(j) + ay.d
    requires k + ay.n + 2 < |a0|
    requires a1 == a0[k := a0[k] + Product(1.0 - u, 1.0 - v)]
    requires |a1| == |a0| && a2 == a1[k + ay.n + 1 := a1[k + ay.n + 1] + Product(u, 1.0 - v)]
    requires |a2| == |a0| && a3 == a2[k + ay.n + 2 := a2[k + ay.n + 2] + Product(u, v)]
    requires |a3| == |a0| && a4 == a3[k + 1 := a3[k + 1] + Product(1.0 - u, v)]
    ensures Holds(a4, ax, ay, count + 1.0, sx + x, sy + y)
  {
    hide *;
    var p, q := ax.Place(i), ay.Place(j);
    var a, b, c, e := Product(1.0 - u, 1.0 - v), Product(u, 1.0 - v), Product(u, v), Product(1.0 - u, v);
    FourPlaces(ax, ay, i, j, k);
    FourShares(u, v, p, ax.d, x);
    FourShares(v, u, q, ay.d, y);
    Commute(u, v);
    Commute(1.0 - u, 1.0 - v);
    Commute(u, 1.0 - v);
    Commute(1.0 - u, v);
    var n1, n2, n3 := k + ay.n + 1, k + ay.n + 2, k + 1;
    OneShare(a0, ax, ay, count, sx, sy, k, a);
    var x1, y1 := sx + Product(a, p), sy + Product(a, q);
    OneShare(a1, ax, ay, count + a, x1, y1, n1, b);
    var x2, y2 := x1 + Product(b, p + ax.d), y1 + Product(b, q);
    OneShare(a2, ax, ay, count + a + b, x2, y2, n2, c);
    var x3, y3 := x2 + Product(c, p + ax.d), y2 + Product(c, q + ay.d);
    OneShare(a3, ax, ay, count + a + b + c, x3, y3, n3, e);
    assert count + a + b + c + e == count + 1.0 && x3 + Product(e, p) == sx + x && y3 + Product(e, q + ay.d) == sy + y;
  }

  lemma FourPlaces(ax: Axis, ay: Axis, i: nat, j: nat, k: nat)
    requires i + 1 <= ax.n && j + 1 <= ay.n && k == i * (ay.n + 1) + j
    ensures k + ay.n + 2 < (ax.n + 1) * (ay.n + 1)
    ensures var r, c := Rows(ax, ay), Columns(ax, ay);
      r[k] == r[k + 1] == ax.Place(i) && r[k + ay.n + 1] == r[k + ay.n + 2] == ax.Place(i + 1) &&
      c[k] == c[k + ay.n + 1] == ay.Place(j) && c[k + 1] == c[k + ay.n + 2] == ay.Place(j + 1)
  {
    hide Rows, Columns, Axis.Place;
    LastPlace(ax.n, ay.n, i, j);
    var m := ay.n + 1;
    assert k + m == (i + 1) * m + j;
    At(ax, ay, i, j, k);
    At(ax, ay, i + 1, j, k + m);
    At(ax, ay, i + 1, j + 1, k + m + 1);
    At(ax, ay, i, j + 1, k + 1);
  }

  lemma Commute(a: real, b: real)
    ensures Product(a, b) == Product(b, a)
  {
  }

  lemma Halves(v: real)
    requires 0.0 <= v < 1.0
    ensures v < 0.5 ==> 0.0 <= 2.0 * v * v && 0.0 <= 1.0 - 2.0 * v * v
    ensures v >= 0.5 ==> 0.0 <= 2.0 * (1.0 - v) * (1.0 - v) && 0.0 <= 1.0 - 2.0 * (1.0 - v) * (1.0 - v)
  {
    var w := if v < 0.5 then v else 1.0 - v;
    ProductNotNegative(w, w);
    ProductNotNegative(w, 1.0 - 2.0 * w);
    Spread(w, 1.0, 2.0 * w);
    assert 2.0 * w * w <= w;
  }

  // ----- the exact shares -----

  /** Across the beam: the share of a place for a particle t cells beyond it. */
  function Tent(t: real): real
  {
    if -1.0 < t < 0.0 then 1.0 + t else if 0.0 <= t < 1.0 then 1.0 - t else 0.0
  }

  /** Along the beam. */
  function Hump(t: real): real
  {
    if -0.5 <= t < 0.0 then 1.0 - 2.0 * (0.0 - t) * (0.0 - t)
    else if 0.0 <= t < 0.5 then 1.0
    else if 0.5 <= t < 1.0 then 2.0 * (1.0 - t) * (1.0 - t)
    else 0.0
  }

  lemma AwayAlgebra(x: real, p: real, q: real, k: real, d: real, u: real)
    requires d > 0.0 && u == Over(x - p, d) && p == q + Product(k, d)
    ensures Over(x - q, d) == u + k
  {
    Spread(d, u, k);
    IsQuotient(x - q, d, u + k);
  }

  lemma PlaceDifference(a: Axis, i: int, k: int)
    ensures a.Place(k) == a.Place(i) + Product((k - i) as real, a.d)
  {
    var c := a.Centre();
    assert (k - c) as real == (i - c) as real + (k - i) as real;
    Spread(a.d, (i - c) as real, (k - i) as real);
  }

  lemma AwayIs(a: Axis, x: real, i: int)
    requires a.d > 0.0
    ensures a.Away(x, i) == a.Offset(x) + (a.Cell(x) - i) as real
  {
    PlaceDifference(a, i, a.Cell(x));
    hide Product, Over, Axis.Place;
    AwayAlgebra(x, a.Place(a.Cell(x)), a.Place(i), (a.Cell(x) - i) as real, a.d, a.Offset(x));
  }

  /** Only the two places around a particle have a share. */
  lemma TentAt(a: Axis, x: real, i: int)
    requires a.d > 0.0 && 0.0 <= a.Offset(x) < 1.0
    ensures Tent(a.Away(x, i)) ==
      if i == a.Cell(x) then 1.0 - a.Offset(x) else if i == a.Cell(x) + 1 then a.Offset(x) else 0.0
  {
    AwayIs(a, x, i);
    hide Axis.Away, Axis.Offset, Axis.Cell;
  }

  lemma HumpAt(a: Axis, x: real, i: int, s: real)
    requires a.d > 0.0 && 0.0 <= a.Offset(x) < 1.0
    requires a.Offset(x) >= 0.5 ==> s == 2.0 * (1.0 - a.Offset(x)) * (1.0 - a.Offset(x))
    ensures var v := a.Offset(x);
      Hump(a.Away(x, i)) ==
      if i == a.Cell(x) then (if v < 0.5 then 1.0 else s)
      else if i == a.Cell(x) + 1 && v >= 0.5 then 1.0 - s
      else 0.0
  {
    AwayIs(a, x, i);
    hide Axis.Away, Axis.Offset, Axis.Cell;
    var v := a.Offset(x);
    if i == a.Cell(x) + 1 {
      assert 0.0 - (v - 1.0) == 1.0 - v;
    }
  }

  function Share(ax: Axis, ay: Axis, x: real, y: real, i: int, j: int): real
    requires ax.d > 0.0 && ay.d > 0.0
  {
    if ax.Inside(x) && ay.Inside(y) then Product(Tent(ax.Away(x, i)), Tent(ay.Away(y, j))) else 0.0
  }

  function ShareAlong(ax: Axis, ay: Axis, az: Axis, x: real, y: real, z: real, k: int): real
    requires az.d > 0.0
  {
    if ax.Inside(x) && ay.Inside(y) && az.Inside(z) then Hump(az.Away(z, k)) else 0.0
  }

  /** The charge at place (i, j) of the first n particles. */
  function Cloud(ax: Axis, ay: Axis, x: seq<real>, y: seq<real>, n: nat, i: int, j: int): real
    requires n <= |x| && n <= |y| && ax.d > 0.0 && ay.d > 0.0
  {
    if n == 0 then 0.0 else Cloud(ax, ay, x, y, n - 1, i, j) + Share(ax, ay, x[n - 1], y[n - 1], i, j)
  }

  function CloudAlong(ax: Axis, ay: Axis, az: Axis, x: seq<real>, y: seq<real>, z: seq<real>, n: nat, k: int): real
    requires n <= |x| && n <= |y| && n <= |z| && az.d > 0.0
  {
    if n == 0 then 0.0
    else CloudAlong(ax, ay, az, x, y, z, n - 1, k) + ShareAlong(ax, ay, az, x[n - 1], y[n - 1], z[n - 1], k)
  }

  /** Where place (i, j) is stored. */
  function Index(ay: Axis, i: nat, j: nat): nat
  {
    i * (ay.n + 1) + j
  }

  lemma IndexFits(ax: Axis, ay: Axis, i: nat, j: nat)
    requires i <= ax.n && j <= ay.n
    ensures Index(ay, i, j) < (ax.n + 1) * (ay.n + 1)
  {
    At(ax, ay, i, j, i * (ay.n + 1) + j);
  }

  lemma IndexOne(ay: Axis, i: nat, j: nat, k: nat, l: nat)
    requires j <= ay.n && l <= ay.n && Index(ay, i, j) == Index(ay, k, l)
    ensures i == k && j == l
  {
    if i < k {
      Words.MulMono(ay.n + 1, i + 1, k);
      Words.Distribute(ay.n + 1, i, 1);
    } else if k < i {
      Words.MulMono(ay.n + 1, k + 1, i);
      Words.Distribute(ay.n + 1, k, 1);
    }
  }

  /** Every place holds the shares of the first n particles. */
  ghost predicate IsCloud(a: seq<real>, ax: Axis, ay: Axis, x: seq<real>, y: seq<real>, n: nat)
    requires n <= |x| && n <= |y| && ax.d > 0.0 && ay.d > 0.0
  {
    forall i: nat, j: nat :: i <= ax.n && j <= ay.n ==>
      Index(ay, i, j) < |a| && a[Index(ay, i, j)] == Cloud(ax, ay, x, y, n, i, j)
  }

  ghost predicate IsCloudAlong(b: seq<real>, ax: Axis, ay: Axis, az: Axis, x: seq<real>, y: seq<real>, z: seq<real>,
                               n: nat)
    requires n <= |x| && n <= |y| && n <= |z| && az.d > 0.0
  {
    |b| == az.n + 1 && forall k :: 0 <= k < |b| ==> b[k] == CloudAlong(ax, ay, az, x, y, z, n, k)
  }

  /** Every place has gained its share of one particle. */
  ghost predicate Gained(a: seq<real>, a': seq<real>, ax: Axis, ay: Axis, x: real, y: real)
    requires ax.d > 0.0 && ay.d > 0.0
  {
    |a'| == |a| == (ax.n + 1) * (ay.n + 1) &&
    forall i: nat, j: nat :: i <= ax.n && j <= ay.n ==>
      Index(ay, i, j) < |a| && a'[Index(ay, i, j)] == a[Index(ay, i, j)] + Share(ax, ay, x, y, i, j)
  }

  ghost predicate GainedAlong(b: seq<real>, b': seq<real>, az: Axis, z: real)
    requires az.d > 0.0
  {
    |b'| == |b| == az.n + 1 && forall k :: 0 <= k < |b| ==> b'[k] == b[k] + Hump(az.Away(z, k))
  }

  lemma GainedOne(a0: seq<real>, a4: seq<real>, ax: Axis, ay: Axis, x: real, y: real, k: nat, p: nat, q: nat)
    requires ax.d > 0.0 && ay.d > 0.0 && ax.Inside(x) && ay.Inside(y) && p <= ax.n && q <= ay.n
    requires ax.Cell(x) >= 0 && ay.Cell(y) >= 0 && k == Index(ay, ax.Cell(x), ay.Cell(y)) && ay.Cell(y) < ay.n
    requires 0.0 <= ax.Offset(x) < 1.0 && 0.0 <= ay.Offset(y) < 1.0 && k + ay.n + 2 < |a0| == |a4|
    requires var u, v := ax.Offset(x), ay.Offset(y);
      a4 == a0[k := a0[k] + Product(1.0 - u, 1.0 - v)][k + ay.n + 1 := a0[k + ay.n + 1] + Product(u, 1.0 - v)]
              [k + ay.n + 2 := a0[k + ay.n + 2] + Product(u, v)][k + 1 := a0[k + 1] + Product(1.0 - u, v)]
    requires Index(ay, p, q) < |a0|
    ensures a4[Index(ay, p, q)] == a0[Index(ay, p, q)] + Share(ax, ay, x, y, p, q)
  {
    var i, j := ax.Cell(x), ay.Cell(y);
    TentAt(ax, x, p);
    TentAt(ay, y, q);
    NoShare(Tent(ax.Away(x, p)), Tent(ay.Away(y, q)));
    NextIndex(ay, i, j);
    hide Product, Tent, Axis.Away, Axis.Offset, Axis.Cell, Axis.Inside, Index;
    var m := Index(ay, p, q);
    if m == Index(ay, i, j) {
      IndexOne(ay, p, q, i, j);
    } else if m == Index(ay, i + 1, j) {
      IndexOne(ay, p, q, i + 1, j);
    } else if m == Index(ay, i + 1, j + 1) {
      IndexOne(ay, p, q, i + 1, j + 1);
    } else if m == Index(ay, i, j + 1) {
      IndexOne(ay, p, q, i, j + 1);
    }
  }

  lemma NoShare(p: real, q: real)
    ensures p == 0.0 || q == 0.0 ==> Product(p, q) == 0.0
  {
  }

  lemma NextIndex(ay: Axis, i: nat, j: nat)
    ensures Index(ay, i + 1, j) == Index(ay, i, j) + ay.n + 1 && Index(ay, i, j + 1) == Index(ay, i, j) + 1
    ensures Index(ay, i + 1, j + 1) == Index(ay, i, j) + ay.n + 2
  {
    Words.Distribute(ay.n + 1, i, 1);
  }

  /** The four deposits give every place its share. */
  lemma GainedFour(a0: seq<real>, a4: seq<real>, ax: Axis, ay: Axis, x: real, y: real, k: nat)
    requires ax.d > 0.0 && ay.d > 0.0 && ax.Inside(x) && ay.Inside(y) && |a0| == (ax.n + 1) * (ay.n + 1)
    requires ax.Cell(x) >= 0 && ay.Cell(y) >= 0 && k == Index(ay, ax.Cell(x), ay.Cell(y)) && ay.Cell(y) < ay.n
    requires 0.0 <= ax.Offset(x) < 1.0 && 0.0 <= ay.Offset(y) < 1.0 && k + ay.n + 2 < |a0| == |a4|
    requires var u, v := ax.Offset(x), ay.Offset(y);
      a4 == a0[k := a0[k] + Product(1.0 - u, 1.0 - v)][k + ay.n + 1 := a0[k + ay.n + 1] + Product(u, 1.0 - v)]
              [k + ay.n + 2 := a0[k + ay.n + 2] + Product(u, v)][k + 1 := a0[k + 1] + Product(1.0 - u, v)]
    ensures Gained(a0, a4, ax, ay, x, y)
  {
    hide Product, Axis.Away, Axis.Offset, Axis.Cell, Axis.Inside, Index, Share;
    forall p: nat, q: nat | p <= ax.n && q <= ay.n
      ensures Index(ay, p, q) < |a0| && a4[Index(ay, p, q)] == a0[Index(ay, p, q)] + Share(ax, ay, x, y, p, q)
    {
      IndexFits(ax, ay, p, q);
      GainedOne(a0, a4, ax, ay, x, y, k, p, q);
    }
  }

  lemma MomentIs(a: seq<real>, az: Axis, count: real, sz: real)
    requires HoldsAlong(a, az, count, sz)
    ensures |a| == az.n + 1 && Total(a, Line(az), |a|) == sz
  {
  }

  /** In the first half of a cell both parts go to its own place. */
  lemma BothHere(a0: seq<real>, a1: seq<real>, a2: seq<real>, az: Axis, count: real, sz: real, z: real, i: nat,
                 v: real, s: real, r: real)
    requires az.d > 0.0 && HoldsAlong(a0, az, count, sz) && i < |a0| == az.n + 1 && s >= 0.0 && r >= 0.0 && s + r == 1.0
    requires i == az.Cell(z) && i < az.n && v == az.Offset(z) && 0.0 <= v < 0.5 && z == az.Place(i) + Product(v, az.d)
    requires a1 == a0[i := a0[i] + s] && |a1| == |a0| && a2 == a1[i := a1[i] + r]
    ensures HoldsAlong(a2, az, count + 1.0, sz + Middle(az, z)) && GainedAlong(a0, a2, az, z)
  {
    hide HoldsAlong, Product, Axis.Cell, Axis.Offset, Axis.Place, GainedAlong;
    OneShareAlong(a0, az, count, sz, i, s);
    OneShareAlong(a1, az, count + s, sz + Product(s, az.Place(i)), i, r);
    TwoShares(s, r, v, z, az.Place(i), az.d);
    assert a2 == a0[i := a0[i] + 1.0];
    GainedTwo(a0, a2, az, z, i, v, 0.0);
  }

  /** In the second half the next place gets its part. */
  lemma HereAndNext(a0: seq<real>, a1: seq<real>, a2: seq<real>, az: Axis, count: real, sz: real, z: real, i: nat,
                    v: real, s: real, r: real)
    requires az.d > 0.0 && HoldsAlong(a0, az, count, sz) && i + 1 < |a0| == az.n + 1 && s >= 0.0 && r >= 0.0
    requires i == az.Cell(z) && i < az.n && v == az.Offset(z) && 0.5 <= v < 1.0 && z == az.Place(i) + Product(v, az.d)
    requires az.Place(i + 1) == az.Place(i) + az.d && s == 2.0 * (1.0 - v) * (1.0 - v) && r == 1.0 - s
    requires a1 == a0[i := a0[i] + s] && |a1| == |a0| && a2 == a1[i + 1 := a1[i + 1] + r]
    ensures HoldsAlong(a2, az, count + 1.0, sz + Middle(az, z)) && GainedAlong(a0, a2, az, z)
  {
    NextMiddle(az, z, v, s, r);
    GainedTwo(a0, a2, az, z, i, v, s);
    hide *;
    OneShareAlong(a0, az, count, sz, i, s);
    OneShareAlong(a1, az, count + s, sz + Product(s, az.Place(i)), i + 1, r);
    TwoShares(s, r, v, z, az.Place(i), az.d);
  }

  lemma NextMiddle(az: Axis, z: real, v: real, s: real, r: real)
    requires az.d > 0.0 && v == az.Offset(z) && 0.5 <= v && s == 2.0 * (1.0 - v) * (1.0 - v) && r == 1.0 - s
    ensures Middle(az, z) == z + Product(r - v, az.d)
  {
    assert Drift(v) == r - v;
    hide Product, Axis.Offset, Drift;
  }

  lemma QuarterPlace()
    ensures var az := Axis(4, 1.0);
      az.Centre() == 2 && az.Inside(0.25) && az.Cell(0.25) == 2 && az.Place(2) == 0.0 && az.Offset(0.25) == 0.25
  {
    var az := Axis(4, 1.0);
    IsQuotient(2.25, 1.0, 2.25);
    IsQuotient(0.25, 1.0, 0.25);
    assert 2.25.Floor == 2;
    hide Over;
  }

  /** A particle a quarter of a cell above zero: its charge is put at zero. */
  lemma QuarterCell(b: seq<real>, b': seq<real>)
    requires GainedAlong(b, b', Axis(4, 1.0), 0.25)
    ensures Axis(4, 1.0).Inside(0.25) && |b| == 5 && b' == b[2 := b[2] + 1.0]
    ensures |b'| == 5 && Total(b', Line(Axis(4, 1.0)), 5) == Total(b, Line(Axis(4, 1.0)), 5)
  {
    hide Hump, Axis.Away, Axis.Offset, Axis.Cell, Axis.Place, Total, Axis.Inside, Product;
    var az := Axis(4, 1.0);
    QuarterPlace();
    forall k | 0 <= k < 5 ensures b'[k] == b[2 := b[2] + 1.0][k] {
      HumpAt(az, 0.25, k, 0.0);
    }
    Deposited(b, Line(az), 2, 1.0, 5);
    assert Line(az)[2] == az.Place(2);
    NoShare(1.0, az.Place(2));
  }

  /** The deposits along the beam give every place its share. */
  lemma GainedTwo(b: seq<real>, b': seq<real>, az: Axis, z: real, i: nat, v: real, s: real)
    requires az.d > 0.0 && |b| == az.n + 1 && i == az.Cell(z) && i < az.n && v == az.Offset(z) && 0.0 <= v < 1.0
    requires v >= 0.5 ==> s == 2.0 * (1.0 - v) * (1.0 - v)
    requires v < 0.5 ==> b' == b[i := b[i] + 1.0]
    requires v >= 0.5 ==> b' == b[i := b[i] + s][i + 1 := b[i + 1] + (1.0 - s)]
    ensures GainedAlong(b, b', az, z)
  {
    assert |b'| == |b|;
    hide Hump, Axis.Away, Axis.Offset, Axis.Cell;
    forall k | 0 <= k < |b| ensures b'[k] == b[k] + Hump(az.Away(z, k)) {
      HumpAt(az, z, k, s);
    }
  }

  lemma CloudMore(a: seq<real>, a': seq<real>, ax: Axis, ay: Axis, x: seq<real>, y: seq<real>, n: nat)
    requires n < |x| && n < |y| && ax.d > 0.0 && ay.d > 0.0 && IsCloud(a, ax, ay, x, y, n)
    requires Gained(a, a', ax, ay, x[n], y[n]) || (a' == a && !(ax.Inside(x[n]) && ay.Inside(y[n])))
    ensures IsCloud(a', ax, ay, x, y, n + 1)
  {
    hide Axis.Inside, Tent, Product, Axis.Away, Index;
  }

  lemma CloudAlongMore(b: seq<real>, b': seq<real>, ax: Axis, ay: Axis, az: Axis, x: seq<real>, y: seq<real>,
                       z: seq<real>, n: nat)
    requires n < |x| && n < |y| && n < |z| && az.d > 0.0 && IsCloudAlong(b, ax, ay, az, x, y, z, n)
    requires if ax.Inside(x[n]) && ay.Inside(y[n]) && az.Inside(z[n]) then GainedAlong(b, b', az, z[n]) else b' == b
    ensures IsCloudAlong(b', ax, ay, az, x, y, z, n + 1)
  {
    hide Axis.Inside, Hump, Axis.Away;
  }

  class PotentialSolver {
    const ax: Axis
    const ay: Axis
    const az: Axis
    const rhoxy: array<real>
    const rhoz: array<real>

    ghost predicate Valid() {
      ax.d > 0.0 && ay.d > 0.0 && az.d > 0.0 && rhoxy != rhoz &&
      rhoxy.Length == (ax.n + 1) * (ay.n + 1) && rhoz.Length == az.n + 1
    }

    constructor (nx: nat, ny: nat, nz: nat, dx: real, dy: real, dz: real)
      requires dx > 0.0 && dy > 0.0 && dz > 0.0
      ensures Valid() && fresh(rhoxy) && fresh(rhoz)
      ensures ax == Axis(nx, dx) && ay == Axis(ny, dy) && az == Axis(nz, dz)
    {
      ax, ay, az := Axis(nx, dx), Axis(ny, dy), Axis(nz, dz);
      var size := (nx + 1) * (ny + 1);
      SizeIs(nx, ny);
      rhoxy := new real[size];
      rhoz := new real[nz + 1];
    }

    /** The charge of one particle in the window, on the grid. */
    method DepositAcross(x: real, y: real, ghost count: real, ghost sx: real, ghost sy: real)
      requires Valid() && ax.Inside(x) && ay.Inside(y) && Holds(rhoxy[..], ax, ay, count, sx, sy)
      modifies rhoxy
      ensures Holds(rhoxy[..], ax, ay, count + 1.0, sx + x, sy + y)
      ensures Gained(old(rhoxy[..]), rhoxy[..], ax, ay, x, y)
    {
      hide Holds, Axis.Inside, Over, Product, Axis.Cell, Axis.Offset;
      ax.InGrid(x);
      ay.InGrid(y);
      var ii := ax.Cell(x);
      var jj := ay.Cell(y);
      var xic := ax.Place(ii);
      var yjc := ay.Place(jj);
      var dxic := x - xic;
      var dyjc := y - yjc;
      OffsetIs(ax, x);
      OffsetIs(ay, y);
      var rxin := Abs(Over(dxic, ax.d));
      var rxi := 1.0 - rxin;
      var ryjn := Abs(Over(dyjc, ay.d));
      var ryj := 1.0 - ryjn;
      ghost var a0 := rhoxy[..];
      var iijj := ii * (ay.n + 1) + jj;
      LastPlace(ax.n, ay.n, ii, jj);
      rhoxy[iijj] := rhoxy[iijj] + Product(rxi, ryj);
      ghost var a1 := rhoxy[..];
      rhoxy[iijj + ay.n + 1] := rhoxy[iijj + ay.n + 1] + Product(rxin, ryj);
      ghost var a2 := rhoxy[..];
      rhoxy[iijj + ay.n + 2] := rhoxy[iijj + ay.n + 2] + Product(rxin, ryjn);
      ghost var a3 := rhoxy[..];
      rhoxy[iijj + 1] := rhoxy[iijj + 1] + Product(rxi, ryjn);
      hide Axis.Place, Abs, Gained;
      GainedFour(a0, rhoxy[..], ax, ay, x, y, iijj);
      FourDeposits(a0, a1, a2, a3, rhoxy[..], ax, ay, count, sx, sy, ii, jj, iijj, rxin, ryjn, x, y);
    }

    /** The charge of one particle on the line along the beam. In the first half of a cell both parts go to
        the cell's own place, so that the charge is put where the particle is only at a place and at half a cell. */
    method DepositAlong(z: real, ghost count: real, ghost sz: real)
      requires Valid() && az.Inside(z) && HoldsAlong(rhoz[..], az, count, sz)
      modifies rhoz
      ensures HoldsAlong(rhoz[..], az, count + 1.0, sz + Middle(az, z))
      ensures Total(rhoz[..], Line(az), rhoz.Length) == old(Total(rhoz[..], Line(az), rhoz.Length)) + z <==>
        az.Offset(z) == 0.0 || az.Offset(z) == 0.5
      ensures GainedAlong(old(rhoz[..]), rhoz[..], az, z)
    {
      hide HoldsAlong, Axis.Inside, Over, Product, Axis.Cell, Axis.Offset, Axis.Place, GainedAlong, Total, Line, Middle;
      az.InGrid(z);
      var ii := az.Cell(z);
      var zic := az.Place(ii);
      OffsetIs(az, z);
      var dzic := Over(z - zic, az.d);
      Halves(dzic);
      ghost var a0 := rhoz[..];
      var rzi, rzin;
      if dzic < 0.5 {
        rzin := 2.0 * dzic * dzic;
        rzi := 1.0 - rzin;
        rhoz[ii] := rhoz[ii] + rzi;
        ghost var a1 := rhoz[..];
        rhoz[ii] := rhoz[ii] + rzin;
        BothHere(a0, a1, rhoz[..], az, count, sz, z, ii, dzic, rzi, rzin);
      } else {
        rzi := 2.0 * (1.0 - dzic) * (1.0 - dzic);
        rzin := 1.0 - rzi;
        rhoz[ii] := rhoz[ii] + rzi;
        ghost var a1 := rhoz[..];
        rhoz[ii + 1] := rhoz[ii + 1] + rzin;
        HereAndNext(a0, a1, rhoz[..], az, count, sz, z, ii, dzic, rzi, rzin);
      }
      MomentIs(a0, az, count, sz);
      MomentIs(rhoz[..], az, count + 1.0, sz + Middle(az, z));
      MiddleIs(az, z);
    }

    /** The charges of all particles: none is lost, and their centre across the beam is kept. */
    method Rhocal(x: array<real>, y: array<real>, z: array<real>, np: nat)
      requires Valid() && np <= x.Length && np <= y.Length && np <= z.Length
      requires {x, y, z} !! {rhoxy, rhoz}
      modifies rhoxy, rhoz
      ensures Holds(rhoxy[..], ax, ay, Count(ax, ay, x[..], y[..], np),
                    SumOf(ax, ay, x[..], y[..], x[..], np), SumOf(ax, ay, x[..], y[..], y[..], np))
      ensures HoldsAlong(rhoz[..], az, CountAlong(ax, ay, az, x[..], y[..], z[..], np),
                         MiddlesAlong(ax, ay, az, x[..], y[..], z[..], np))
      ensures IsCloud(rhoxy[..], ax, ay, x[..], y[..], np)
      ensures IsCloudAlong(rhoz[..], ax, ay, az, x[..], y[..], z[..], np)
    {
      hide Holds, HoldsAlong, Axis.Inside, IsCloud, IsCloudAlong, Gained, GainedAlong;
      ghost var xs, ys, zs := x[..], y[..], z[..];
      forall k | 0 <= k < rhoxy.Length {
        rhoxy[k] := 0.0;
      }
      forall k | 0 <= k < rhoz.Length {
        rhoz[k] := 0.0;
      }
      HoldsNone(rhoxy[..], rhoz[..], ax, ay, az);
      CloudNone(rhoxy[..], rhoz[..], ax, ay, az, xs, ys, zs);
      for i := 0 to np
        invariant x[..] == xs && y[..] == ys && z[..] == zs
        invariant Holds(rhoxy[..], ax, ay, Count(ax, ay, xs, ys, i),
                        SumOf(ax, ay, xs, ys, xs, i), SumOf(ax, ay, xs, ys, ys, i))
        invariant HoldsAlong(rhoz[..], az, CountAlong(ax, ay, az, xs, ys, zs, i),
                             MiddlesAlong(ax, ay, az, xs, ys, zs, i))
        invariant IsCloud(rhoxy[..], ax, ay, xs, ys, i) && IsCloudAlong(rhoz[..], ax, ay, az, xs, ys, zs, i)
      {
        ghost var a0, b0 := rhoxy[..], rhoz[..];
        if !ax.Inside(x[i]) || !ay.Inside(y[i]) {
          CloudMore(a0, a0, ax, ay, xs, ys, i);
          CloudAlongMore(b0, b0, ax, ay, az, xs, ys, zs, i);
          continue;
        }
        DepositAcross(x[i], y[i], Count(ax, ay, xs, ys, i), SumOf(ax, ay, xs, ys, xs, i), SumOf(ax, ay, xs, ys, ys, i));
        CloudMore(a0, rhoxy[..], ax, ay, xs, ys, i);
        if !az.Inside(z[i]) {
          CloudAlongMore(b0, b0, ax, ay, az, xs, ys, zs, i);
          continue;
        }
        DepositAlong(z[i], CountAlong(ax, ay, az, xs, ys, zs, i), MiddlesAlong(ax, ay, az, xs, ys, zs, i));
        CloudAlongMore(b0, rhoz[..], ax, ay, az, xs, ys, zs, i);
      }
    }
  }

  lemma CloudNone(a: seq<real>, b: seq<real>, ax: Axis, ay: Axis, az: Axis, x: seq<real>, y: seq<real>, z: seq<real>)
    requires ax.d > 0.0 && ay.d > 0.0 && az.d > 0.0 && |a| == (ax.n + 1) * (ay.n + 1) && |b| == az.n + 1
    requires (forall k :: 0 <= k < |a| ==> a[k] == 0.0) && forall k :: 0 <= k < |b| ==> b[k] == 0.0
    ensures IsCloud(a, ax, ay, x, y, 0) && IsCloudAlong(b, ax, ay, az, x, y, z, 0)
  {
    forall i: nat, j: nat | i <= ax.n && j <= ay.n
      ensures Index(ay, i, j) < |a| && a[Index(ay, i, j)] == Cloud(ax, ay, x, y, 0, i, j)
    {
      IndexFits(ax, ay, i, j);
    }
  }

  lemma SizeIs(nx: nat, ny: nat)
    ensures (nx + 1) * (ny + 1) >= 1
  {
  }

  lemma LastPlace(nx: nat, ny: nat, i: nat, j: nat)
    requires i + 1 <= nx && j + 1 <= ny
    ensures 0 <= i * (ny + 1) + j && i * (ny + 1) + j + ny + 2 < (nx + 1) * (ny + 1)
  {
    assert (i + 2) * (ny + 1) <= (nx + 1) * (ny + 1) by {
      assert (nx - 1 - i) * (ny + 1) >= 0;
    }
    assert (i + 2) * (ny + 1) == i * (ny + 1) + 2 * ny + 2;
  }

  lemma OffsetIs(a: Axis, x: real)
    requires a.d > 0.0 && 0.0 <= a.Offset(x)
    ensures Over(x - a.Place(a.Cell(x)), a.d) == a.Offset(x) == Abs(a.Offset(x))
  {
  }

  lemma HoldsNone(a: seq<real>, b: seq<real>, ax: Axis, ay: Axis, az: Axis)
    requires |a| == (ax.n + 1) * (ay.n + 1) && |b| == az.n + 1
    requires (forall k :: 0 <= k < |a| ==> a[k] == 0.0) && forall k :: 0 <= k < |b| ==> b[k] == 0.0
    ensures Holds(a, ax, ay, 0.0, 0.0, 0.0) && HoldsAlong(b, az, 0.0, 0.0)
  {
    NoCharge(a, Ones(|a|), |a|);
    NoCharge(a, Rows(ax, ay), |a|);
    NoCharge(a, Columns(ax, ay), |a|);
    NoCharge(b, Ones(|b|), |b|);
    NoCharge(b, Line(az), |b|);
  }
}
