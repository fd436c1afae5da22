/** ddct and ddst: the cosine and the sine transform by way of the transform of reals, and their inverses. */
module Ddct {
  import opened Words
  import opened Complex
  import opened Dft
  import opened FourierLaws
  import opened RealFft
  import opened Cdft
  import opened Rdft
  import RealAlgebra

  /** Neighbours mixed before the backward passes; the sine transform has other signs than the cosine transform. */
  function SpreadAt(sine: bool, x: seq<real>, i: nat): real
    requires |x| >= 2 && i < |x|
  {
    var last := x[|x| - 1];
    if i == 0 then (if sine then x[0] - last else x[0] + last)
    else if i == 1 then (if sine then x[0] + last else x[0] - last)
    else if i % 2 == 0 then (if sine then x[i] - x[i - 1] else x[i] + x[i - 1])
    else (if sine then -x[i - 1] - x[i - 2] else x[i - 1] - x[i - 2])
  }

  function Spread(sine: bool, x: seq<real>): (y: seq<real>)
    requires |x| >= 2
    ensures |y| == |x|
  {
    seq(|x|, i requires 0 <= i < |x| => SpreadAt(sine, x, i))
  }

  /** And mixed after the forward passes. */
  function GatherAt(sine: bool, y: seq<real>, i: nat): real
    requires |y| >= 2 && |y| % 2 == 0 && i < |y|
  {
    if i == 0 then y[0] + y[1]
    else if i == |y| - 1 then (if sine then -(y[0] - y[1]) else y[0] - y[1])
    else if i % 2 == 0 then (if sine then y[i] - y[i + 1] else y[i] + y[i + 1])
    else (if sine then -y[i + 1] - y[i + 2] else y[i + 1] - y[i + 2])
  }

  function Gather(sine: bool, y: seq<real>): (x: seq<real>)
    requires |y| >= 2 && |y| % 2 == 0
    ensures |x| == |y|
  {
    seq(|y|, i requires 0 <= i < |y| => GatherAt(sine, y, i))
  }

  function Multiple(r: real, x: seq<real>): (y: seq<real>)
    ensures |y| == |x|
  {
    seq(|x|, i requires 0 <= i < |x| => RealAlgebra.Product(r, x[i]))
  }

  /** The partner of place j, for even j. */
  function Before(n: nat, j: nat): nat
    requires n > 0
  {
    if j == 0 then n - 1 else j - 1
  }

  /** Two numbers mixed; the first pair of the sine transform has its second result the other way round. */
  function Mixed(sine: bool, j: nat, p: real, q: real): (real, real)
  {
    if !sine then (p + q, p - q) else if j == 0 then (p - q, p + q) else (p - q, -p - q)
  }

  function Unmixed(sine: bool, j: nat, s: real, t: real): (real, real)
  {
    if !sine then (s + t, s - t) else if j == 0 then (s + t, -(s - t)) else (s - t, -s - t)
  }

  lemma SpreadPair(sine: bool, x: seq<real>, j: nat)
    requires |x| >= 2 && |x| % 2 == 0 && j % 2 == 0 && j < |x|
    ensures (Spread(sine, x)[j], Spread(sine, x)[j + 1]) == Mixed(sine, j, x[j], x[Before(|x|, j)])
  {
  }

  lemma GatherPair(sine: bool, y: seq<real>, j: nat)
    requires |y| >= 2 && |y| % 2 == 0 && j % 2 == 0 && j < |y|
    ensures (Gather(sine, y)[j], Gather(sine, y)[Before(|y|, j)]) == Unmixed(sine, j, y[j], y[j + 1])
  {
  }

  lemma ProductSums(r: real, p: real, q: real, s: real)
    ensures s == p + q ==> RealAlgebra.Product(r, s) == RealAlgebra.Product(r, p) + RealAlgebra.Product(r, q)
    ensures s == p - q ==> RealAlgebra.Product(r, s) == RealAlgebra.Product(r, p) - RealAlgebra.Product(r, q)
    ensures s == -p - q ==> RealAlgebra.Product(r, s) == -RealAlgebra.Product(r, p) - RealAlgebra.Product(r, q)
    ensures RealAlgebra.Product(2.0 * r, p) == 2.0 * RealAlgebra.Product(r, p)
    ensures RealAlgebra.Product(2.0 * r, q) == 2.0 * RealAlgebra.Product(r, q)
  {
    RealDistribute(r, p, q);
    RealDistribute(r, -p, q);
    Triple(2.0, r, p);
    Triple(2.0, r, q);
  }

  lemma MixedTwice(sine: bool, j: nat, r: real, p: real, q: real)
    ensures var m := Mixed(sine, j, p, q);
      Unmixed(sine, j, RealAlgebra.Product(r, m.0), RealAlgebra.Product(r, m.1)) ==
      (RealAlgebra.Product(2.0 * r, p), RealAlgebra.Product(2.0 * r, q))
  {
    hide RealAlgebra.Product;
    var m := Mixed(sine, j, p, q);
    ProductSums(r, p, q, m.0);
    ProductSums(r, p, q, m.1);
  }

  lemma MultipleAt(r: real, x: seq<real>, i: nat)
    requires i < |x|
    ensures Multiple(r, x)[i] == RealAlgebra.Product(r, x[i])
  {
  }

  lemma GatherSpreadAt(sine: bool, r: real, x: seq<real>, i: nat)
    requires |x| >= 2 && |x| % 2 == 0 && i < |x|
    ensures Gather(sine, Multiple(r, Spread(sine, x)))[i] == RealAlgebra.Product(2.0 * r, x[i])
  {
    var j := if i == |x| - 1 then 0 else if i % 2 == 0 then i else i + 1;
    assert j % 2 == 0 && j + 1 < |x| && (i == j || i == Before(|x|, j));
    hide *;
    BeforeIn(|x|, j);
    var y := Spread(sine, x);
    SpreadPair(sine, x, j);
    GatherPair(sine, Multiple(r, y), j);
    MultipleAt(r, y, j);
    MultipleAt(r, y, j + 1);
    MixedTwice(sine, j, r, x[j], x[Before(|x|, j)]);
  }

  lemma BeforeIn(n: nat, j: nat)
    requires n > 0 && j < n
    ensures Before(n, j) < n
  {
  }

  /** The second mixing undoes the first, but for a factor of two. */
  lemma GatherSpread(sine: bool, r: real, x: seq<real>)
    requires |x| >= 2 && |x| % 2 == 0
    ensures Gather(sine, Multiple(r, Spread(sine, x))) == Multiple(2.0 * r, x)
  {
    hide *;
    forall i: nat | i < |x| ensures Gather(sine, Multiple(r, Spread(sine, x)))[i] == Multiple(2.0 * r, x)[i] {
      GatherSpreadAt(sine, r, x, i);
      MultipleAt(2.0 * r, x, i);
    }
  }

  /** The table of half cosines has ks entries for every real. */
  ghost predicate Fine(c: seq<real>, ks: nat, n: nat)
  {
    n >= 2 && n % 2 == 0 && ks > 0 && ks * (n / 2) <= |c|
  }

  lemma FineAt(c: seq<real>, ks: nat, n: nat, j: nat)
    requires Fine(c, ks, n) && 0 < j < n / 2
    ensures 0 < j * ks < |c|
  {
    MulMono(ks, 1, j);
    MulMono(ks, j + 1, n / 2);
    Distribute(ks, j, 1);
  }

  /** One turn of the pair (p, q), by an angle and a reflection; w and v are half its cosine and its sine. */
  function First(sine: bool, w: real, v: real, p: real, q: real): real
  {
    if sine then (w + v) * q - (w - v) * p else (w - v) * p + (w + v) * q
  }

  function Second(sine: bool, w: real, v: real, p: real, q: real): real
  {
    if sine then (w - v) * q + (w + v) * p else (w + v) * p - (w - v) * q
  }

  /** Turning twice halves. */
  lemma TurnTwice(sine: bool, w: real, v: real, p: real, q: real)
    requires w * w + v * v == 0.25
    ensures var p', q' := First(sine, w, v, p, q), Second(sine, w, v, p, q);
      First(sine, w, v, p', q') == 0.5 * p && Second(sine, w, v, p', q') == 0.5 * q
  {
    var d, s := w - v, w + v;
    assert d * d + s * s == 0.5 by {
      RealDistribute(d, w, v);
      RealDistribute(s, w, v);
      RealDistribute(w, w, v);
      RealDistribute(v, w, v);
    }
    TurnAlgebra(d, s, p, q);
  }

  lemma TurnAlgebra(d: real, s: real, p: real, q: real)
    requires d * d + s * s == 0.5
    ensures d * (d * p + s * q) + s * (s * p - d * q) == 0.5 * p
    ensures s * (d * p + s * q) - d * (s * p - d * q) == 0.5 * q
    ensures s * (d * q + s * p) - d * (s * q - d * p) == 0.5 * p
    ensures d * (d * q + s * p) + s * (s * q - d * p) == 0.5 * q
  {
    TurnHalf(d, s, p, q);
    TurnHalf(d, s, q, p);
  }

  lemma TurnHalf(d: real, s: real, p: real, q: real)
    requires d * d + s * s == 0.5
    ensures d * (d * p + s * q) + s * (s * p - d * q) == 0.5 * p
    ensures s * (d * p + s * q) - d * (s * p - d * q) == 0.5 * q
  {
    RealDistribute(d, d * p, s * q);
    RealDistribute(s, s * p, d * q);
    RealDistribute(s, d * p, s * q);
    RealDistribute(d, s * p, d * q);
    Triple(d, d, p);
    Triple(s, s, p);
    Triple(d, s, q);
    Triple(s, d, q);
    Triple(s, d, p);
    Triple(d, s, p);
    Triple(s, s, q);
    Triple(d, d, q);
    RealDistribute(p, d * d, s * s);
    RealDistribute(q, d * d, s * s);
    assert d * s == s * d;
  }

  /** Entry i when the pairs below r are turned, and, at the end, the middle entry is scaled. */
  ghost function TurnedAt(sine: bool, c: seq<real>, ks: nat, x: seq<real>, r: nat, i: nat): real
    requires Fine(c, ks, |x|) && i < |x|
  {
    var n := |x|;
    if i == 0 || 2 * i == n then x[i]
    else if 2 * i < n then
      if i >= r then x[i] else FineAt(c, ks, n, i); First(sine, c[i * ks], c[|c| - i * ks], x[i], x[n - i])
    else
      if n - i >= r then x[i]
      else FineAt(c, ks, n, n - i); Second(sine, c[(n - i) * ks], c[|c| - (n - i) * ks], x[n - i], x[i])
  }

  /** The whole of dctsub, or of dstsub. */
  ghost function Turned(sine: bool, c: seq<real>, ks: nat, x: seq<real>): (y: seq<real>)
    requires Fine(c, ks, |x|)
    ensures |y| == |x|
  {
    seq(|x|, i requires 0 <= i < |x| =>
      if 2 * i == |x| then RealAlgebra.Product(x[i], c[0]) else TurnedAt(sine, c, ks, x, |x| / 2, i))
  }

  lemma TurnedPair(sine: bool, c: seq<real>, ks: nat, x: seq<real>, j: nat)
    requires Fine(c, ks, |x|) && 0 < j < |x| / 2
    ensures 0 < j * ks < |c|
    ensures var y, w, v := Turned(sine, c, ks, x), c[j * ks], c[|c| - j * ks];
      y[j] == First(sine, w, v, x[j], x[|x| - j]) && y[|x| - j] == Second(sine, w, v, x[j], x[|x| - j])
  {
    FineAt(c, ks, |x|, j);
    hide First, Second;
  }

  /** The laws of the table: half a circle, and in front the cosine of an eighth of a turn. */
  ghost predicate CosineTable(c: seq<real>)
  {
    |c| > 0 && HalfCircle(c) && c[0] * c[0] == 0.5
  }

  function HalfFirst(x: seq<real>): (y: seq<real>)
    requires |x| > 0
    ensures |y| == |x|
  {
    x[0 := 0.5 * x[0]]
  }

  /** dctsub twice, and also dstsub twice, halves every number, if the first is halved in between. */
  lemma TurnedTwice(sine: bool, c: seq<real>, ks: nat, x: seq<real>)
    requires Fine(c, ks, |x|) && CosineTable(c)
    ensures Turned(sine, c, ks, HalfFirst(Turned(sine, c, ks, x))) == Multiple(0.5, x)
  {
    assert |x| >= 2 && |x| % 2 == 0;
    hide *;
    var y := HalfFirst(Turned(sine, c, ks, x));
    var z, n := Turned(sine, c, ks, y), |x|;
    forall i: nat | i < n ensures z[i] == Multiple(0.5, x)[i] {
      MultipleAt(0.5, x, i);
      if i == 0 || 2 * i == n {
        TurnedEnds(sine, c, ks, x, y, z, i);
      } else {
        TurnedTwiceAt(sine, c, ks, x, y, z, if 2 * i < n then i else n - i);
      }
    }
  }

  lemma TurnedEnds(sine: bool, c: seq<real>, ks: nat, x: seq<real>, y: seq<real>, z: seq<real>, i: nat)
    requires Fine(c, ks, |x|) && CosineTable(c) && i < |x| && (i == 0 || 2 * i == |x|)
    requires y == HalfFirst(Turned(sine, c, ks, x)) && z == Turned(sine, c, ks, y)
    ensures z[i] == RealAlgebra.Product(0.5, x[i])
  {
    Triple(x[i], c[0], c[0]);
  }

  lemma TurnedTwiceAt(sine: bool, c: seq<real>, ks: nat, x: seq<real>, y: seq<real>, z: seq<real>, j: nat)
    requires Fine(c, ks, |x|) && CosineTable(c) && 0 < j < |x| / 2
    requires y == HalfFirst(Turned(sine, c, ks, x)) && z == Turned(sine, c, ks, y)
    ensures z[j] == RealAlgebra.Product(0.5, x[j]) && z[|x| - j] == RealAlgebra.Product(0.5, x[|x| - j])
  {
    FineAt(c, ks, |x|, j);
    var w, v := c[j * ks], c[|c| - j * ks];
    assert w * w + v * v == 0.25;
    hide First, Second, Turned, Fine, CosineTable;
    TurnedPair(sine, c, ks, x, j);
    TurnedPair(sine, c, ks, y, j);
    TurnTwice(sine, w, v, x[j], x[|x| - j]);
  }

  // ----- in place -----

  lemma SpreadIs(sine: bool, x: seq<real>, j: nat)
    requires |x| >= 2 && j % 2 == 0 && j + 1 < |x|
    ensures j >= 2 ==> SpreadAt(sine, x, j) == if sine then x[j] - x[j - 1] else x[j] + x[j - 1]
    ensures j >= 2 ==> SpreadAt(sine, x, j + 1) == if sine then -x[j] - x[j - 1] else x[j] - x[j - 1]
    ensures SpreadAt(sine, x, 0) == if sine then x[0] - x[|x| - 1] else x[0] + x[|x| - 1]
    ensures SpreadAt(sine, x, 1) == if sine then x[0] + x[|x| - 1] else x[0] - x[|x| - 1]
  {
  }

  lemma GatherIs(sine: bool, y: seq<real>, j: nat)
    requires |y| >= 2 && |y| % 2 == 0 && j % 2 == 0 && j + 1 < |y|
    ensures j >= 2 ==> GatherAt(sine, y, j) == if sine then y[j] - y[j + 1] else y[j] + y[j + 1]
    ensures j >= 2 ==> GatherAt(sine, y, j - 1) == if sine then -y[j] - y[j + 1] else y[j] - y[j + 1]
    ensures GatherAt(sine, y, 0) == y[0] + y[1]
    ensures GatherAt(sine, y, |y| - 1) == if sine then -(y[0] - y[1]) else y[0] - y[1]
  {
  }

  /** The loop of ddct and ddst before the backward passes, from the far end to the front. */
  method SpreadOut(sine: bool, n: nat, a: array<real>)
    requires 2 <= n <= a.Length && n % 2 == 0
    modifies a
    ensures a[..n] == Spread(sine, old(a[..n]))
    ensures forall i :: n <= i < a.Length ==> a[i] == old(a[i])
  {
    hide SpreadAt;
    ghost var x := a[..n];
    SpreadIs(sine, x, 0);
    var xr := a[n - 1];
    var j := n - 2;
    while j >= 2
      invariant 0 <= j <= n - 2 && j % 2 == 0
      invariant forall i :: 0 <= i < j + 2 ==> a[i] == x[i]
      invariant forall i :: j + 2 <= i < n ==> a[i] == SpreadAt(sine, x, i)
      invariant forall i :: n <= i < a.Length ==> a[i] == old(a[i])
    {
      SpreadIs(sine, x, j);
      if sine {
        a[j + 1] := -a[j] - a[j - 1];
        a[j] := a[j] - a[j - 1];
      } else {
        a[j + 1] := a[j] - a[j - 1];
        a[j] := a[j] + a[j - 1];
      }
      j := j - 2;
    }
    a[1] := if sine then a[0] + xr else a[0] - xr;
    a[0] := if sine then a[0] - xr else a[0] + xr;
  }

  /** The loop after the forward passes. */
  method GatherIn(sine: bool, n: nat, a: array<real>)
    requires 2 <= n <= a.Length && n % 2 == 0
    modifies a
    ensures a[..n] == Gather(sine, old(a[..n]))
    ensures forall i :: n <= i < a.Length ==> a[i] == old(a[i])
  {
    hide GatherAt;
    ghost var y := a[..n];
    GatherIs(sine, y, 0);
    var xr := a[0] - a[1];
    a[0] := a[0] + a[1];
    var j := 2;
    while j < n
      invariant 2 <= j <= n && j % 2 == 0
      invariant forall i :: 0 <= i < j - 1 ==> a[i] == GatherAt(sine, y, i)
      invariant forall i :: j <= i < n ==> a[i] == y[i]
      invariant forall i :: n <= i < a.Length ==> a[i] == old(a[i])
    {
      GatherIs(sine, y, j);
      if sine {
        a[j - 1] := -a[j] - a[j + 1];
        a[j] := a[j] - a[j + 1];
      } else {
        a[j - 1] := a[j] - a[j + 1];
        a[j] := a[j] + a[j + 1];
      }
      j := j + 2;
    }
    a[n - 1] := if sine then -xr else xr;
  }

  /** How many entries of the table one real takes. */
  function Steps(nc: nat, n: nat): nat
    requires n > 0
  {
    nc / n
  }

  lemma StepsAreFine(n: nat, nc: nat, c: seq<real>)
    requires n >= 2 && n % 2 == 0 && n <= nc == |c|
    ensures Fine(c, Steps(nc, n), n) && |c| > 0 && Steps(nc, n) == nc / n
  {
    QuotientFits(nc, n);
  }

  lemma QuotientFits(nc: nat, n: nat)
    requires 2 <= n <= nc && n % 2 == 0
    ensures nc / n > 0 && nc / n * (n / 2) <= nc
  {
    var q := nc / n;
    assert q * n <= nc;
    MulMono(q, n / 2, n);
  }

  /** The pairs below r are turned. */
  ghost predicate TurnedTo(sine: bool, c: seq<real>, ks: nat, x: seq<real>, y: seq<real>, r: nat)
  {
    Fine(c, ks, |x|) && |y| == |x| && forall i :: 0 <= i < |x| ==> y[i] == TurnedAt(sine, c, ks, x, r, i)
  }

  lemma TurnedNone(sine: bool, c: seq<real>, ks: nat, x: seq<real>)
    requires Fine(c, ks, |x|)
    ensures TurnedTo(sine, c, ks, x, x, 1)
  {
    hide Fine, First, Second;
  }

  lemma TurnedAll(sine: bool, c: seq<real>, ks: nat, x: seq<real>, y: seq<real>)
    requires TurnedTo(sine, c, ks, x, y, |x| / 2) && |c| > 0
    ensures |x| >= 2 && |x| % 2 == 0 && y[|x| / 2 := RealAlgebra.Product(y[|x| / 2], c[0])] == Turned(sine, c, ks, x)
  {
    hide First, Second, RealAlgebra.Product;
    assert y[|x| / 2] == x[|x| / 2];
  }

  /** dctsub, and with the other signs dstsub. */
  method Dctsub(sine: bool, n: nat, a: array<real>, nc: nat, c: array<real>, co: nat)
    requires 2 <= n <= a.Length && n % 2 == 0 && n <= nc && a != c && co + nc <= c.Length
    modifies a
    ensures Fine(c[co..co + nc], Steps(nc, n), n) && a[..n] == Turned(sine, c[co..co + nc], Steps(nc, n), old(a[..n]))
    ensures forall i :: n <= i < a.Length ==> a[i] == old(a[i])
  {
    ghost var x, t := a[..n], c[co..co + nc];
    StepsAreFine(n, nc, t);
    var m := n / 2;
    var ks := nc / n;
    var kk := 0;
    var j := 1;
    TurnedNone(sine, t, ks, x);
    hide *;
    while j < m
      invariant 1 <= j <= m && kk + ks == j * ks
      invariant TurnedTo(sine, t, ks, x, a[..n], j)
      invariant forall i :: n <= i < a.Length ==> a[i] == old(a[i])
    {
      kk := kk + ks;
      FineAt(t, ks, n, j);
      TurnPair(sine, n, a, j, c[co + kk], c[co + nc - kk], x, t, ks);
      NextStep(j, ks);
      j := j + 1;
    }
    TurnedAll(sine, t, ks, x, a[..n]);
    ghost var y := a[..n];
    a[m] := Times(a[m], c[co]);
    assert a[..n] == y[m := RealAlgebra.Product(y[m], t[0])];
  }

  lemma NextStep(j: nat, ks: nat)
    ensures (j + 1) * ks == j * ks + ks
  {
  }

  method Times(p: real, q: real) returns (r: real)
    ensures r == RealAlgebra.Product(p, q)
  {
    r := p * q;
  }

  /** Both results for one pair. */
  method TurnBoth(sine: bool, w: real, v: real, p: real, q: real) returns (y1: real, y2: real)
    ensures y1 == First(sine, w, v, p, q) && y2 == Second(sine, w, v, p, q)
  {
    var wkr, wki := w - v, w + v;
    if sine {
      y1 := wki * q - wkr * p;
      y2 := wkr * q + wki * p;
    } else {
      y2 := wki * p - wkr * q;
      y1 := wkr * p + wki * q;
    }
  }

  /** One pair: places j and n - j. */
  method TurnPair(sine: bool, n: nat, a: array<real>, j: nat, w: real, v: real, ghost x: seq<real>, ghost t: seq<real>,
                  ghost ks: nat)
    requires n <= a.Length && |x| == n && Fine(t, ks, n) && 0 < j < n / 2
    requires 0 < j * ks < |t| && w == t[j * ks] && v == t[|t| - j * ks]
    requires TurnedTo(sine, t, ks, x, a[..n], j)
    modifies a
    ensures TurnedTo(sine, t, ks, x, a[..n], j + 1)
    ensures forall i :: n <= i < a.Length ==> a[i] == old(a[i])
  {
    var k := n - j;
    ghost var y := a[..n];
    TurnedMore(sine, t, ks, x, y, j, w, v);
    hide *;
    var y1, y2 := TurnBoth(sine, w, v, a[j], a[k]);
    a[j], a[k] := y1, y2;
    assert a[..n] == y[j := y1][k := y2];
  }

  lemma TurnedMore(sine: bool, c: seq<real>, ks: nat, x: seq<real>, y: seq<real>, j: nat, w: real, v: real)
    requires TurnedTo(sine, c, ks, x, y, j) && 0 < j < |x| / 2
    requires 0 < j * ks < |c| && w == c[j * ks] && v == c[|c| - j * ks]
    ensures |y| == |x|
    ensures TurnedTo(sine, c, ks, x,
      y[j := First(sine, w, v, y[j], y[|x| - j])][|x| - j := Second(sine, w, v, y[j], y[|x| - j])], j + 1)
  {
    hide First, Second;
    assert y[j] == x[j] && y[|x| - j] == x[|x| - j];
  }

  // ----- the whole transforms -----

  /** Reals in pairs, and the other way round. */
  function Pairs(x: seq<real>): (s: seq<C>)
    ensures |s| == |x| / 2
  {
    seq(|x| / 2, i requires 0 <= i < |x| / 2 => C(x[2 * i], x[2 * i + 1]))
  }

  function Flat(s: seq<C>): (x: seq<real>)
    ensures |x| == 2 * |s|
  {
    seq(2 * |s|, i requires 0 <= i < 2 * |s| => if i % 2 == 0 then s[i / 2].re else s[i / 2].im)
  }

  lemma FlatOfPairs(x: seq<real>)
    requires |x| % 2 == 0
    ensures Flat(Pairs(x)) == x
  {
    forall i: nat | i < |x| ensures Flat(Pairs(x))[i] == x[i] {
      assert i == 2 * (i / 2) + i % 2;
    }
  }

  lemma PairsOfFlat(s: seq<C>)
    ensures Pairs(Flat(s)) == s
  {
    forall i: nat | i < |s| ensures Pairs(Flat(s))[i] == s[i] {
      assert 2 * i / 2 == i && (2 * i + 1) / 2 == i;
    }
  }

  lemma ArrayPairs(a: array<real>, n: nat)
    requires n <= a.Length && n % 2 == 0
    ensures Entries(a, n) == Pairs(a[..n]) && a[..n] == Flat(Entries(a, n))
  {
    assert Entries(a, n) == Pairs(a[..n]);
    FlatOfPairs(a[..n]);
  }

  lemma PairsMultiple(r: real, x: seq<real>)
    requires |x| % 2 == 0
    ensures Pairs(Multiple(r, x)) == Scale(C(r, 0.0), Pairs(x))
  {
    forall i: nat | i < |x| / 2 ensures Pairs(Multiple(r, x))[i] == Scale(C(r, 0.0), Pairs(x))[i] {
      RealTimes(r, Pairs(x)[i]);
    }
  }

  lemma {:induction false} SumScale(z: C, s: seq<C>, t: C, k: nat, n: nat)
    requires n <= |s|
    ensures Sum(Scale(z, s), t, k, n) == Mul(z, Sum(s, t, k, n))
  {
    hide Mul, Add;
    if n == 0 {
      MulComm(z, ZERO);
      MulOne(z);
    } else {
      SumScale(z, s, t, k, n - 1);
      CMulAssoc(z, s[n - 1], Power(t, (n - 1) * k));
      CDistribute(z, Sum(s, t, k, n - 1), Mul(s[n - 1], Power(t, (n - 1) * k)));
    }
  }

  lemma AllScale(z: C, s: seq<C>, t: C)
    ensures All(Scale(z, s), t) == Scale(z, All(s, t))
  {
    forall k: nat | k < |s| ensures All(Scale(z, s), t)[k] == Scale(z, All(s, t))[k] {
      SumScale(z, s, t, k, |s|);
    }
  }

  /** The forward passes keep real multiples. */
  lemma SpectrumScale(n: nat, c: seq<real>, nc: nat, K: nat, theta: C, r: real, s: seq<C>)
    requires n == 2 * Pow(2, K) && |s| == Pow(2, K)
    requires n > 4 ==> |c| == nc && Reaches(c, StepsOf(nc, Pow(2, K)), Pow(2, K))
    ensures Spectrum(n, c, nc, K, theta, Scale(C(r, 0.0), s)) == Scale(C(r, 0.0), Spectrum(n, c, nc, K, theta, s))
  {
    hide *;
    var R, t := C(r, 0.0), Mul(theta, theta);
    SpectrumIs(n, c, nc, K, theta, s);
    SpectrumIs(n, c, nc, K, theta, Scale(R, s));
    AllScale(R, s, t);
    if n > 4 {
      ForwardScale(c, StepsOf(nc, Pow(2, K)), r, All(s, t));
    }
  }

  /** The passes on the reals as they stand in the array. */
  method BackwardReals(n: nat, a: array<real>, ip: array<nat>, w: array<real>, nw: nat, nc: nat,
                       ghost K: nat, ghost K0: nat, ghost omega: C, ghost theta: C)
    requires n <= a.Length && a != w && RealTables(n, w, nw, nc, K, K0, omega, theta) && n % 2 == 0
    requires n > 4 ==> 2 + Pow(2, K / 2) <= ip.Length
    modifies a, ip
    ensures forall j :: 0 <= j < 2 && j < ip.Length ==> ip[j] == old(ip[j])
    ensures nw + nc <= w.Length && a[..n] == Flat(Rebuilt(n, w[nw..nw + nc], nc, K, theta, Pairs(old(a[..n]))))
    ensures RealTables(n, w, nw, nc, K, K0, omega, theta)
  {
    hide *;
    TableSizes(n, w, nw, nc, K, K0, omega, theta);
    ArrayPairs(a, n);
    BackwardPasses(n, a, ip, w, nw, nc, K, K0, omega, theta);
    ArrayPairs(a, n);
  }

  method ForwardReals(n: nat, a: array<real>, ip: array<nat>, w: array<real>, nw: nat, nc: nat,
                      ghost K: nat, ghost K0: nat, ghost omega: C, ghost theta: C)
    requires n <= a.Length && a != w && RealTables(n, w, nw, nc, K, K0, omega, theta) && n % 2 == 0
    requires n > 4 ==> 2 + Pow(2, K / 2) <= ip.Length
    modifies a, ip
    ensures forall j :: 0 <= j < 2 && j < ip.Length ==> ip[j] == old(ip[j])
    ensures nw + nc <= w.Length && a[..n] == Flat(Spectrum(n, w[nw..nw + nc], nc, K, theta, Pairs(old(a[..n]))))
    ensures RealTables(n, w, nw, nc, K, K0, omega, theta)
  {
    hide *;
    TableSizes(n, w, nw, nc, K, K0, omega, theta);
    ArrayPairs(a, n);
    ForwardPasses(n, a, ip, w, nw, nc, K, K0, omega, theta);
    ArrayPairs(a, n);
  }

  /** ddct, and ddst, with isgn < 0. */
  method DdctBackward(sine: bool, n: nat, a: array<real>, ip: array<nat>, w: array<real>, nw: nat, nc: nat,
                      ghost K: nat, ghost K0: nat, ghost omega: C, ghost theta: C)
    requires n <= a.Length && a != w && RealTables(n, w, nw, nc, K, K0, omega, theta) && n <= nc
    requires n > 4 ==> 2 + Pow(2, K / 2) <= ip.Length
    modifies a, ip
    ensures forall j :: 0 <= j < 2 && j < ip.Length ==> ip[j] == old(ip[j])
    ensures nw + nc <= w.Length && n >= 2 && n % 2 == 0 && Fine(w[nw..nw + nc], Steps(nc, n), n)
    ensures var c := w[nw..nw + nc];
      a[..n] == Turned(sine, c, Steps(nc, n), Flat(Rebuilt(n, c, nc, K, theta, Pairs(Spread(sine, old(a[..n]))))))
    ensures RealTables(n, w, nw, nc, K, K0, omega, theta)
  {
    hide *;
    TableSizes(n, w, nw, nc, K, K0, omega, theta);
    StepsAreFine(n, nc, w[nw..nw + nc]);
    SpreadOut(sine, n, a);
    BackwardReals(n, a, ip, w, nw, nc, K, K0, omega, theta);
    Dctsub(sine, n, a, nc, w, nw);
  }

  /** ddct, and ddst, with isgn >= 0. */
  method DdctForward(sine: bool, n: nat, a: array<real>, ip: array<nat>, w: array<real>, nw: nat, nc: nat,
                     ghost K: nat, ghost K0: nat, ghost omega: C, ghost theta: C)
    requires n <= a.Length && a != w && RealTables(n, w, nw, nc, K, K0, omega, theta) && n <= nc
    requires n > 4 ==> 2 + Pow(2, K / 2) <= ip.Length
    modifies a, ip
    ensures forall j :: 0 <= j < 2 && j < ip.Length ==> ip[j] == old(ip[j])
    ensures nw + nc <= w.Length && n >= 2 && n % 2 == 0 && Fine(w[nw..nw + nc], Steps(nc, n), n)
    ensures var c := w[nw..nw + nc];
      a[..n] == Gather(sine, Flat(Spectrum(n, c, nc, K, theta, Pairs(Turned(sine, c, Steps(nc, n), old(a[..n]))))))
    ensures RealTables(n, w, nw, nc, K, K0, omega, theta)
  {
    hide *;
    TableSizes(n, w, nw, nc, K, K0, omega, theta);
    StepsAreFine(n, nc, w[nw..nw + nc]);
    Dctsub(sine, n, a, nc, w, nw);
    ForwardReals(n, a, ip, w, nw, nc, K, K0, omega, theta);
    GatherIn(sine, n, a);
  }

  /** The backward transform, half of the first number, and the forward transform: the numbers themselves,
      n/2 times as large. */
  method BackwardAndForward(sine: bool, n: nat, a: array<real>, ip: array<nat>, w: array<real>, nw: nat, nc: nat,
                            ghost K: nat, ghost K0: nat, ghost omega: C, ghost theta: C)
    requires n <= a.Length && a != w && RealTables(n, w, nw, nc, K, K0, omega, theta) && n <= nc
    requires nw + nc <= w.Length && CosineTable(w[nw..nw + nc])
    requires n > 4 ==> 2 + Pow(2, K / 2) <= ip.Length
    modifies a, ip
    ensures a[..n] == Multiple(Pow(2, K) as real, old(a[..n])) && 2 * Pow(2, K) == n
  {
    hide *;
    ghost var x, c := a[..n], w[nw..nw + nc];
    TableSizes(n, w, nw, nc, K, K0, omega, theta);
    DdctBackward(sine, n, a, ip, w, nw, nc, K, K0, omega, theta);
    ghost var b := Pairs(Spread(sine, x));
    ghost var y := Flat(Rebuilt(n, c, nc, K, theta, b));
    HalvesFirst(a[..n]);
    ghost var z := a[..n];
    a[0] := 0.5 * a[0];
    assert a[..n] == z[0 := 0.5 * z[0]];
    DdctForward(sine, n, a, ip, w, nw, nc, K, K0, omega, theta);
    TurnedTwice(sine, c, Steps(nc, n), y);
    PassesUndone(n, w, nw, nc, K, K0, omega, theta, b, y);
    SpreadComesBack(sine, Pow(2, K), x);
  }

  lemma HalvesFirst(x: seq<real>)
    requires |x| > 0
    ensures HalfFirst(x) == x[0 := 0.5 * x[0]]
  {
  }

  /** Backward passes, halves of everything, forward passes. */
  lemma PassesUndone(n: nat, w: array<real>, nw: nat, nc: nat, K: nat, K0: nat, omega: C, theta: C, b: seq<C>,
                     y: seq<real>)
    requires RealTables(n, w, nw, nc, K, K0, omega, theta) && |b| == Pow(2, K)
    requires y == Flat(Rebuilt(n, w[nw..nw + nc], nc, K, theta, b))
    ensures |y| == n && n % 2 == 0
    ensures Spectrum(n, w[nw..nw + nc], nc, K, theta, Pairs(Multiple(0.5, y))) ==
      Scale(C(0.5, 0.0), Scale(C(Pow(2, K) as real, 0.0), b))
  {
    hide *;
    TableSizes(n, w, nw, nc, K, K0, omega, theta);
    var c := w[nw..nw + nc];
    var s := Rebuilt(n, c, nc, K, theta, b);
    PairsOfFlat(s);
    PairsMultiple(0.5, y);
    SpectrumScale(n, c, nc, K, theta, 0.5, s);
    SpectrumOfRebuilt(n, w, nw, nc, K, K0, omega, theta, b);
  }

  lemma SpreadComesBack(sine: bool, N: nat, x: seq<real>)
    requires |x| >= 2 && |x| % 2 == 0
    ensures Gather(sine, Flat(Scale(C(0.5, 0.0), Scale(C(N as real, 0.0), Pairs(Spread(sine, x)))))) ==
      Multiple(N as real, x)
  {
    hide *;
    var y, r := Spread(sine, x), N as real;
    PairsMultiple(r, y);
    PairsMultiple(0.5, Multiple(r, y));
    FlatOfPairs(Multiple(0.5, Multiple(r, y)));
    HalfMultiple(r, y);
    GatherSpread(sine, 0.5 * r, x);
    assert 2.0 * (0.5 * r) == r;
  }

  lemma HalfMultiple(r: real, y: seq<real>)
    ensures Multiple(0.5, Multiple(r, y)) == Multiple(0.5 * r, y)
  {
    forall i: nat | i < |y| ensures Multiple(0.5, Multiple(r, y))[i] == Multiple(0.5 * r, y)[i] {
      Triple(0.5, r, y[i]);
    }
  }
}
