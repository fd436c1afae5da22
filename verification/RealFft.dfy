/** rftfsub and rftbsub: between the transform of packed pairs of reals and the transform of the reals. */
module RealFft {
  import opened Words
  import opened Complex
  import opened Dft
  import opened FourierLaws
  import opened Butterflies

  /** The table reaches every pair: ks steps of it for every entry, up to nc. */
  ghost predicate Reaches(c: seq<real>, ks: nat, m: nat)
  {
    ks > 0 && m % 2 == 0 && m > 0 && ks * (m / 2) <= |c|
  }

  lemma InTable(c: seq<real>, ks: nat, m: nat, p: nat)
    requires Reaches(c, ks, m) && 0 < p < m / 2
    ensures 0 < p * ks < |c|
  {
    MulMono(ks, 1, p);
    MulMono(ks, p + 1, m / 2);
    Distribute(ks, p, 1);
  }

  /** The factor of entry p, from the table of half cosines. */
  ghost function Share(c: seq<real>, ks: nat, m: nat, p: nat): C
    requires Reaches(c, ks, m) && 0 < p < m / 2
  {
    InTable(c, ks, m, p);
    C(0.5 - c[|c| - p * ks], c[p * ks])
  }

  /** How entry p changes by itself and how its mirror image does, for the factor w of p. */
  function Moved(w: C, z: C, v: C): C
  {
    Mul(w, Sub(z, Conj(v)))
  }

  /** What entry p and its mirror image exchange. */
  ghost function Exchanged(back: bool, c: seq<real>, ks: nat, s: seq<C>, p: nat): C
    requires Reaches(c, ks, |s|) && 0 < p < |s| / 2
  {
    var w := Share(c, ks, |s|, p);
    Moved(if back then Conj(w) else w, s[p], s[|s| - p])
  }

  /** Entry p when the pairs below r are done: one loses what the other gains, conjugated. */
  ghost function RealValue(back: bool, c: seq<real>, ks: nat, s: seq<C>, r: nat, p: nat): C
    requires Reaches(c, ks, |s|) && p < |s|
  {
    if p == 0 || 2 * p == |s| then s[p]
    else if 2 * p < |s| then
      if p >= r then s[p]
      else TurnIf(back, Sub(s[p], Exchanged(back, c, ks, s, p)))
    else
      if |s| - p >= r then s[p]
      else TurnIf(back, Add(s[p], Conj(Exchanged(back, c, ks, s, |s| - p))))
  }

  function TurnIf(back: bool, z: C): C
  {
    if back then Conj(z) else z
  }

  ghost predicate RealDone(back: bool, c: seq<real>, ks: nat, s0: seq<C>, s: seq<C>, r: nat)
  {
    Reaches(c, ks, |s0|) && |s0| == |s| && forall p: nat :: p < |s| ==> s[p] == RealValue(back, c, ks, s0, r, p)
  }

  lemma RealStep(back: bool, c: seq<real>, ks: nat, s0: seq<C>, s: seq<C>, r: nat, u: C, v: C)
    requires RealDone(back, c, ks, s0, s, r) && 0 < r < |s| / 2
    requires u == TurnIf(back, Sub(s[r], Exchanged(back, c, ks, s, r)))
    requires v == TurnIf(back, Add(s[|s| - r], Conj(Exchanged(back, c, ks, s, r))))
    ensures RealDone(back, c, ks, s0, s[r := u][|s| - r := v], r + 1)
  {
    assert s[r] == s0[r] && s[|s| - r] == s0[|s| - r];
    hide Sub, Add, Conj, TurnIf, Moved, Reaches, Share;
  }

  /** The table law: c[kk] and c[nc - kk] are half the cosine and half the sine of one angle. */
  ghost predicate HalfCircle(c: seq<real>)
  {
    forall kk :: 0 < kk < |c| ==> c[kk] * c[kk] + c[|c| - kk] * c[|c| - kk] == 0.25
  }

  /** Modulus and real part: |w|^2 = Re w. */
  lemma NormIsReal(c: real, d: real)
    requires c * c + d * d == 0.25
    ensures Norm(C(0.5 - d, c)) == 0.5 - d
  {
    RealDistribute(0.5 - d, 0.5, d);
    RealDistribute(d, 0.5, d);
  }

  /** Forward and then backward on one pair: everything is conjugated. */
  lemma PairBack(w: C, u: C, v: C)
    requires Norm(w) == w.re
    ensures var y := Moved(w, u, v);
      var u1, v1 := Sub(u, y), Add(v, Conj(y));
      var y1 := Moved(Conj(w), u1, v1);
      Conj(Sub(u1, y1)) == Conj(u) && Conj(Add(v1, Conj(y1))) == Conj(v)
  {
    var x := Sub(u, Conj(v));
    var y := Mul(w, x);
    var u1, v1 := Sub(u, y), Add(v, Conj(y));
    assert Sub(u1, Conj(v1)) == Sub(x, Add(y, y));
    MulConj(w);
    MulComm(w, Conj(w));
    assert Mul(Conj(w), y) == C(w.re * x.re, w.re * x.im) by {
      CMulAssoc(Conj(w), w, x);
      RealTimes(w.re, x);
    }
    CDistribute(Conj(w), x, Add(y, y));
    CDistribute(Conj(w), y, y);
    ConjPlus(w, x);
    hide Mul;
    assert Mul(Conj(w), Sub(u1, Conj(v1))) == Sub(ZERO, y);
  }

  lemma RealTimes(r: real, x: C)
    ensures Mul(C(r, 0.0), x) == C(r * x.re, r * x.im)
  {
  }

  /** w conjugated is twice its real part less w. */
  lemma ConjPlus(w: C, x: C)
    ensures Add(Mul(Conj(w), x), Mul(w, x)) == Add(C(w.re * x.re, w.re * x.im), C(w.re * x.re, w.re * x.im))
  {
  }

  /** The whole of rftfsub. */
  ghost function RealForward(c: seq<real>, ks: nat, s: seq<C>): (r: seq<C>)
    requires Reaches(c, ks, |s|)
    ensures |r| == |s|
  {
    seq(|s|, p requires 0 <= p < |s| => RealValue(false, c, ks, s, |s| / 2, p))
  }

  /** The whole of rftbsub, which conjugates everything. */
  ghost function RealBackward(c: seq<real>, ks: nat, s: seq<C>): (r: seq<C>)
    requires Reaches(c, ks, |s|)
    ensures |r| == |s|
  {
    seq(|s|, p requires 0 <= p < |s| =>
      if p == 0 || 2 * p == |s| then Conj(s[p]) else RealValue(true, c, ks, s, |s| / 2, p))
  }

  lemma ShareNorm(c: seq<real>, ks: nat, m: nat, p: nat)
    requires HalfCircle(c) && Reaches(c, ks, m) && 0 < p < m / 2
    ensures Norm(Share(c, ks, m, p)) == Share(c, ks, m, p).re
  {
    InTable(c, ks, m, p);
    NormIsReal(c[p * ks], c[|c| - p * ks]);
  }

  lemma ForwardPair(c: seq<real>, ks: nat, s: seq<C>, p: nat)
    requires Reaches(c, ks, |s|) && 0 < p < |s| / 2
    ensures var y := Moved(Share(c, ks, |s|, p), s[p], s[|s| - p]);
      RealForward(c, ks, s)[p] == Sub(s[p], y) && RealForward(c, ks, s)[|s| - p] == Add(s[|s| - p], Conj(y))
  {
    hide Sub, Add, Conj, Moved, Reaches, Share;
  }

  lemma BackwardPair(c: seq<real>, ks: nat, s: seq<C>, p: nat)
    requires Reaches(c, ks, |s|) && 0 < p < |s| / 2
    ensures var y := Moved(Conj(Share(c, ks, |s|, p)), s[p], s[|s| - p]);
      RealBackward(c, ks, s)[p] == Conj(Sub(s[p], y)) &&
      RealBackward(c, ks, s)[|s| - p] == Conj(Add(s[|s| - p], Conj(y)))
  {
    hide Sub, Add, Conj, Moved, Reaches, Share;
  }

  /** rftbsub after rftfsub conjugates every number. */
  lemma BackIsConjugate(c: seq<real>, ks: nat, s: seq<C>)
    requires HalfCircle(c) && Reaches(c, ks, |s|)
    ensures RealBackward(c, ks, RealForward(c, ks, s)) == Conjugates(s)
  {
    var f := RealForward(c, ks, s);
    var b := RealBackward(c, ks, f);
    forall p: nat | p < |s| ensures b[p] == Conjugates(s)[p] {
      if p == 0 || 2 * p == |s| {
      } else {
        hide *;
        Ends(s, |s| - p);
        Ends(s, p);
        var q := if 2 * p < |s| then p else |s| - p;
        EvenLength(c, ks, |s|);
        ShareNorm(c, ks, |s|, q);
        ForwardPair(c, ks, s, q);
        BackwardPair(c, ks, f, q);
        PairBack(Share(c, ks, |s|, q), s[q], s[|s| - q]);
      }
    }
  }

  /** rftfsub after rftbsub, but for the conjugation that is rftbsub's own, changes nothing. */
  lemma ForwardIsInverse(c: seq<real>, ks: nat, s: seq<C>)
    requires HalfCircle(c) && Reaches(c, ks, |s|)
    ensures RealForward(c, ks, Conjugates(RealBackward(c, ks, s))) == s
  {
    var b := Conjugates(RealBackward(c, ks, s));
    var f := RealForward(c, ks, b);
    forall p: nat | p < |s| ensures f[p] == s[p] {
      if p == 0 || 2 * p == |s| {
        assert b[p] == Conj(Conj(s[p])) == s[p];
      } else {
        hide *;
        EvenLength(c, ks, |s|);
        var q := if 2 * p < |s| then p else |s| - p;
        var w := Share(c, ks, |s|, q);
        Ends(RealBackward(c, ks, s), q);
        Ends(RealBackward(c, ks, s), |s| - q);
        ShareNorm(c, ks, |s|, q);
        BackwardPair(c, ks, s, q);
        ForwardPair(c, ks, b, q);
        ConjFacts(w);
        PairBack(Conj(w), s[q], s[|s| - q]);
        var y := Moved(Conj(w), s[q], s[|s| - q]);
        var u, v := Sub(s[q], y), Add(s[|s| - q], Conj(y));
        ConjFacts(u);
        ConjFacts(v);
        var y' := Moved(w, u, v);
        ConjSame(Sub(u, y'), s[q]);
        ConjSame(Add(v, Conj(y')), s[|s| - q]);
      }
    }
  }

  lemma ConjFacts(w: C)
    ensures Conj(Conj(w)) == w && Norm(Conj(w)) == Norm(w) && Conj(w).re == w.re
  {
  }

  lemma ConjSame(a: C, b: C)
    requires Conj(a) == Conj(b)
    ensures a == b
  {
  }

  /** A real multiple of a number. */
  lemma MovedScale(r: real, w: C, z: C, v: C)
    ensures var R := C(r, 0.0);
      Moved(w, Mul(R, z), Mul(R, v)) == Mul(R, Moved(w, z, v))
  {
    var R := C(r, 0.0);
    assert Conj(Mul(R, v)) == Mul(R, Conj(v));
    CDistribute(R, z, Conj(v));
    CMulAssoc(w, R, Sub(z, Conj(v)));
    MulComm(w, R);
    CMulAssoc(R, w, Sub(z, Conj(v)));
    hide Mul, Conj, Sub;
  }

  lemma PairScale(r: real, w: C, z: C, v: C)
    ensures var R, y := C(r, 0.0), Moved(w, z, v);
      Sub(Mul(R, z), Moved(w, Mul(R, z), Mul(R, v))) == Mul(R, Sub(z, y)) &&
      Add(Mul(R, v), Conj(Moved(w, Mul(R, z), Mul(R, v)))) == Mul(R, Add(v, Conj(y)))
  {
    var R, y := C(r, 0.0), Moved(w, z, v);
    MovedScale(r, w, z, v);
    assert Conj(Mul(R, y)) == Mul(R, Conj(y));
    CDistribute(R, z, y);
    CDistribute(R, v, Conj(y));
    hide Mul, Conj, Sub, Add;
  }

  lemma ScaleAt(z: C, s: seq<C>, p: nat)
    requires p < |s|
    ensures Scale(z, s)[p] == Mul(z, s[p])
  {
  }

  /** rftfsub keeps real multiples. */
  lemma ForwardScale(c: seq<real>, ks: nat, r: real, s: seq<C>)
    requires Reaches(c, ks, |s|)
    ensures RealForward(c, ks, Scale(C(r, 0.0), s)) == Scale(C(r, 0.0), RealForward(c, ks, s))
  {
    var R := C(r, 0.0);
    var x, f := Scale(R, s), RealForward(c, ks, s);
    forall p: nat | p < |s| ensures RealForward(c, ks, x)[p] == Scale(R, f)[p] {
      if p == 0 || 2 * p == |s| {
        assert f[p] == s[p];
      } else {
        hide *;
        EvenLength(c, ks, |s|);
        var q := if 2 * p < |s| then p else |s| - p;
        ForwardPair(c, ks, s, q);
        ForwardPair(c, ks, x, q);
        ScaleAt(R, s, q);
        ScaleAt(R, s, |s| - q);
        ScaleAt(R, f, p);
        PairScale(r, Share(c, ks, |s|, q), s[q], s[|s| - q]);
      }
    }
  }

  lemma EvenLength(c: seq<real>, ks: nat, m: nat)
    requires Reaches(c, ks, m)
    ensures m % 2 == 0
  {
  }

  lemma Ends(s: seq<C>, p: int)
    ensures 0 <= p < |s| ==> Conjugates(s)[p] == Conj(s[p])
  {
  }

  // ----- in place -----

  lemma ExchangedIs(back: bool, c: seq<real>, ks: nat, s: seq<C>, p: nat, wkr: real, wki: real, xr: real, xi: real,
                    yr: real, yi: real)
    requires Reaches(c, ks, |s|) && 0 < p < |s| / 2 && Share(c, ks, |s|, p) == C(wkr, wki)
    requires C(xr, xi) == C(s[p].re - s[|s| - p].re, s[p].im + s[|s| - p].im)
    requires back ==> yr == wkr * xr + wki * xi && yi == wkr * xi - wki * xr
    requires !back ==> yr == wkr * xr - wki * xi && yi == wkr * xi + wki * xr
    ensures Exchanged(back, c, ks, s, p) == C(yr, yi)
  {
    hide Share, Reaches;
  }

  lemma ShareRead(c: seq<real>, ks: nat, m: nat, p: nat, kk: nat)
    requires Reaches(c, ks, m) && 0 < p < m / 2 && kk == p * ks
    ensures 0 < kk < |c| && Share(c, ks, m, p) == C(0.5 - c[|c| - kk], c[kk])
  {
    InTable(c, ks, m, p);
  }

  lemma ExchangedSame(back: bool, c: seq<real>, ks: nat, s0: seq<C>, s: seq<C>, p: nat)
    requires RealDone(back, c, ks, s0, s, p) && 0 < p < |s| / 2
    ensures s[p] == s0[p] && s[|s| - p] == s0[|s| - p] && Exchanged(back, c, ks, s, p) == Exchanged(back, c, ks, s0, p)
  {
    hide Share, Moved, Conj, Sub, Add, Reaches;
  }

  lemma TurnedParts(back: bool, u: C, v: C, y: C)
    ensures TurnIf(back, Sub(u, y)) == if back then C(u.re - y.re, y.im - u.im) else C(u.re - y.re, u.im - y.im)
    ensures TurnIf(back, Add(v, Conj(y))) == if back then C(v.re + y.re, y.im - v.im) else C(v.re + y.re, v.im - y.im)
  {
  }

  /** One pair: entry p at j and its mirror image at k. */
  method RealPair(back: bool, n: nat, a: array<real>, j: nat, k: nat, kk: nat, nc: nat, c: array<real>, co: nat,
                  ghost s0: seq<C>, ghost ks: nat, ghost p: nat)
    requires n <= a.Length && a != c && co + nc <= c.Length && j == 2 * p && k == n - j && kk == p * ks
    requires n == 2 * |s0| && 0 < p < |s0| / 2
    requires RealDone(back, c[co..co + nc], ks, s0, Entries(a, n), p)
    modifies a
    ensures RealDone(back, c[co..co + nc], ks, s0, Entries(a, n), p + 1)
    ensures forall i :: n <= i < a.Length ==> a[i] == old(a[i])
  {
    ghost var t, m := c[co..co + nc], |s0|;
    DoneReaches(back, t, ks, s0, Entries(a, n), p);
    ShareRead(t, ks, m, p, kk);
    ExchangedSame(back, t, ks, s0, Entries(a, n), p);
    hide RealDone, Reaches, Share, Exchanged, Entries, TurnIf, Add, Sub, Conj, Moved;
    var wkr := 0.5 - c[co + nc - kk];
    var wki := c[co + kk];
    var ur, ui := GetEntry(n, a, j, p);
    var vr, vi := GetEntry(n, a, k, m - p);
    var xr := ur - vr;
    var xi := ui + vi;
    var yr, yi;
    if back {
      yr := wkr * xr + wki * xi;
      yi := wkr * xi - wki * xr;
    } else {
      yr := wkr * xr - wki * xi;
      yi := wkr * xi + wki * xr;
    }
    ExchangedIs(back, t, ks, s0, p, wkr, wki, xr, xi, yr, yi);
    TurnedParts(back, C(ur, ui), C(vr, vi), C(yr, yi));
    var u := C(ur - yr, if back then yi - ui else ui - yi);
    var v := C(vr + yr, if back then yi - vi else vi - yi);
    RealStep(back, t, ks, s0, Entries(a, n), p, u, v);
    SetEntry(n, a, j, u, p);
    SetEntry(n, a, k, v, m - p);
  }

  lemma DoneReaches(back: bool, c: seq<real>, ks: nat, s0: seq<C>, s: seq<C>, r: nat)
    requires RealDone(back, c, ks, s0, s, r)
    ensures Reaches(c, ks, |s0|) && |s| == |s0|
  {
  }

  lemma RealStarts(back: bool, c: seq<real>, ks: nat, s: seq<C>)
    requires Reaches(c, ks, |s|)
    ensures RealDone(back, c, ks, s, s, 1)
  {
  }

  /** How many steps of the table of half cosines make one entry. */
  function StepsOf(nc: nat, m: nat): nat
    requires m > 0
  {
    2 * nc / m
  }

  /** The loop over the pairs, which both directions share. */
  method RealPairs(back: bool, n: nat, a: array<real>, nc: nat, c: array<real>, co: nat, ghost m': nat)
    requires n <= a.Length && a != c && co + nc <= c.Length && n == 2 * m' && m' % 2 == 0 && m' > 0 && m' <= 2 * nc
    modifies a
    ensures Reaches(c[co..co + nc], StepsOf(nc, m'), m')
    ensures RealDone(back, c[co..co + nc], StepsOf(nc, m'), old(Entries(a, n)), Entries(a, n), m' / 2)
    ensures forall i :: n <= i < a.Length ==> a[i] == old(a[i])
  {
    ghost var s0 := Entries(a, n);
    var m := n / 2;
    StepsReach(nc, m, c[co..co + nc]);
    var ks := 2 * nc / m;
    RealStarts(back, c[co..co + nc], ks, s0);
    hide RealDone, Reaches, Entries;
    var kk := 0;
    ghost var p := 1;
    var j := 2;
    while j < m
      invariant j == 2 * p && 1 <= p && 2 * p <= m + 1 && kk == (p - 1) * ks
      invariant m > 2 || p == 1
      invariant RealDone(back, c[co..co + nc], ks, s0, Entries(a, n), p)
      invariant forall i :: n <= i < a.Length ==> a[i] == old(a[i])
    {
      var k := n - j;
      kk := kk + ks;
      assert kk == p * ks;
      RealPair(back, n, a, j, k, kk, nc, c, co, s0, ks, p);
      j := j + 2;
      p := p + 1;
    }
  }

  lemma StepsReach(nc: nat, m: nat, c: seq<real>)
    requires m > 0 && m % 2 == 0 && m <= 2 * nc && |c| == nc
    ensures Reaches(c, StepsOf(nc, m), m) && StepsOf(nc, m) == 2 * nc / m
  {
    var ks := 2 * nc / m;
    assert 2 * nc == m * ks + 2 * nc % m;
    var h := m / 2;
    assert m == 2 * h;
    MulAssoc(2, h, ks);
  }

  lemma ForwardEnds(c: seq<real>, ks: nat, s0: seq<C>, s: seq<C>)
    requires RealDone(false, c, ks, s0, s, |s0| / 2)
    ensures Reaches(c, ks, |s0|) && s == RealForward(c, ks, s0)
  {
    hide RealValue;
  }

  lemma BackwardEnds(c: seq<real>, ks: nat, s0: seq<C>, s1: seq<C>, s: seq<C>)
    requires Reaches(c, ks, |s0|) && |s0| == |s1| == |s| && s1 == s0[0 := Conj(s0[0])]
    requires RealDone(true, c, ks, s1, s, |s0| / 2)
    ensures s[|s| / 2 := Conj(s[|s| / 2])] == RealBackward(c, ks, s0)
  {
    hide Conj, Moved, Add, Sub, Share;
  }

  /** From the transform of pairs to the transform of reals. */
  method Rftfsub(n: nat, a: array<real>, nc: nat, c: array<real>, co: nat, ghost m: nat)
    requires n <= a.Length && a != c && co + nc <= c.Length && n == 2 * m && m % 2 == 0 && 0 < m <= 2 * nc
    modifies a
    ensures Reaches(c[co..co + nc], StepsOf(nc, m), m)
    ensures Entries(a, n) == RealForward(c[co..co + nc], StepsOf(nc, m), old(Entries(a, n)))
    ensures forall i :: n <= i < a.Length ==> a[i] == old(a[i])
  {
    hide *;
    RealPairs(false, n, a, nc, c, co, m);
    ForwardEnds(c[co..co + nc], StepsOf(nc, m), old(Entries(a, n)), Entries(a, n));
  }

  method ConjugateAt(n: nat, a: array<real>, i: nat, ghost p: nat)
    requires n <= a.Length && i == 2 * p + 1 && p < n / 2
    modifies a
    ensures Entries(a, n) == old(Entries(a, n))[p := Conj(old(Entries(a, n))[p])]
    ensures forall i :: n <= i < a.Length ==> a[i] == old(a[i])
  {
    a[i] := -a[i];
  }

  /** And back, conjugating everything. */
  method Rftbsub(n: nat, a: array<real>, nc: nat, c: array<real>, co: nat, ghost m': nat)
    requires n <= a.Length && a != c && co + nc <= c.Length && n == 2 * m' && m' % 2 == 0 && 0 < m' <= 2 * nc
    modifies a
    ensures Reaches(c[co..co + nc], StepsOf(nc, m'), m')
    ensures Entries(a, n) == RealBackward(c[co..co + nc], StepsOf(nc, m'), old(Entries(a, n)))
    ensures forall i :: n <= i < a.Length ==> a[i] == old(a[i])
  {
    hide *;
    ghost var s0 := Entries(a, n);
    ConjugateAt(n, a, 1, 0);
    ghost var s1 := Entries(a, n);
    RealPairs(true, n, a, nc, c, co, m');
    var m := n / 2;
    BackwardEnds(c[co..co + nc], StepsOf(nc, m'), s0, s1, Entries(a, n));
    ConjugateAt(n, a, m + 1, m / 2);
  }

  // ----- what the numbers mean -----

  /** The reals that the entries of s are pairs of, as complex numbers. */
  function Reals(s: seq<C>): (r: seq<C>)
    ensures |r| == 2 * |s|
  {
    seq(2 * |s|, i requires 0 <= i < 2 * |s| => C(if i % 2 == 0 then s[i / 2].re else s[i / 2].im, 0.0))
  }

  ghost predicate AllReal(s: seq<C>)
  {
    forall i :: 0 <= i < |s| ==> s[i].im == 0.0
  }

  lemma PairsApart(s: seq<C>)
    ensures AllReal(Evens(Reals(s))) && AllReal(Odds(Reals(s))) && |Evens(Reals(s))| == |Odds(Reals(s))| == |s|
    ensures s == AddAll(Evens(Reals(s)), Scale(I, Odds(Reals(s))))
  {
    forall i | 0 <= i < |s| ensures s[i] == Add(C(s[i].re, 0.0), Mul(I, C(s[i].im, 0.0))) {
      TimesI(s[i].im, 0.0);
    }
  }

  /** The other way round the circle. */
  lemma TurnBack(t: C, m: nat, k: nat)
    requires Norm(t) == 1.0 && Power(t, m) == ONE && k <= m
    ensures Power(t, m - k) == Conj(Power(t, k))
  {
    hide Power, Norm, Mul, Conj;
    PowerAdd(t, m - k, k);
    NormPower(t, k);
    CMulAssoc(Power(t, m - k), Power(t, k), Conj(Power(t, k)));
    MulConj(Power(t, k));
    MulOne(Power(t, m - k));
    MulOne(Conj(Power(t, k)));
  }

  /** The transform of reals takes conjugate values at mirror places. */
  lemma {:induction false} RealSum(s: seq<C>, t: C, m: nat, k: nat, n: nat)
    requires AllReal(s) && n <= |s| && Norm(t) == 1.0 && Power(t, m) == ONE && k <= m
    ensures Sum(s, t, m - k, n) == Conj(Sum(s, t, k, n))
  {
    if n > 0 {
      RealSum(s, t, m, k, n - 1);
      RealTerm(s[n - 1], t, m, k, n - 1);
    }
  }

  lemma RealTerm(z: C, t: C, m: nat, k: nat, j: nat)
    requires z.im == 0.0 && Norm(t) == 1.0 && Power(t, m) == ONE && k <= m
    ensures Mul(z, Power(t, j * (m - k))) == Conj(Mul(z, Power(t, j * k)))
  {
    hide *;
    TurnBack(t, m, k);
    PowerOfPower(t, m - k, j);
    PowerOfPower(t, k, j);
    ConjPower(Power(t, k), j);
    ConjMul(z, Power(t, j * k));
    RealConj(z);
  }

  lemma PowerOfPower(t: C, k: nat, j: nat)
    ensures Power(t, j * k) == Power(Power(t, k), j)
  {
    PowerPower(t, k, j);
    hide *;
    assert j * k == k * j;
  }

  lemma RealConj(z: C)
    requires z.im == 0.0
    ensures Conj(z) == z
  {
  }

  /** The table of half cosines belongs to the kernel theta: entry p of its ks-steps is half of theta^p. */
  ghost predicate HalfTable(c: seq<real>, ks: nat, m: nat, theta: C)
    requires Reaches(c, ks, m)
  {
    forall p: nat :: 0 < p < m / 2 ==> Share(c, ks, m, p) == Halved(Add(ONE, Mul(I, Power(theta, p))))
  }

  function Halved(z: C): C
  {
    C(z.re / 2.0, z.im / 2.0)
  }

  /** A pair of the packed transform from the transforms E and O of the even and the odd reals. */
  lemma PairMeans(E: C, O: C, f: C)
    ensures var w, u, v := Halved(Add(ONE, Mul(I, f))), Add(E, Mul(I, O)), Add(Conj(E), Mul(I, Conj(O)));
      Sub(u, Moved(w, u, v)) == Add(E, Mul(f, O)) &&
      Add(v, Conj(Moved(w, u, v))) == Add(Conj(E), Mul(Sub(ZERO, Conj(f)), Conj(O)))
  {
    var w, u, v := Halved(Add(ONE, Mul(I, f))), Add(E, Mul(I, O)), Add(Conj(E), Mul(I, Conj(O)));
    TimesI(O.re, O.im);
    TimesI(O.re, -O.im);
    TimesI(f.re, f.im);
    var x := Sub(u, Conj(v));
    assert x == C(-2.0 * O.im, 2.0 * O.re);
    assert w == C((1.0 - f.im) / 2.0, f.re / 2.0);
    HalfTimesTwice(f, O);
    ConjMul(f, O);
    MinusMul(Conj(f), Conj(O));
    hide Mul;
  }

  lemma HalfTimesTwice(f: C, O: C)
    ensures Mul(C((1.0 - f.im) / 2.0, f.re / 2.0), C(-2.0 * O.im, 2.0 * O.re)) == Sub(C(-O.im, O.re), Mul(f, O))
  {
    HalfTwice(1.0 - f.im, O.im);
    HalfTwice(1.0 - f.im, O.re);
    HalfTwice(f.re, O.im);
    HalfTwice(f.re, O.re);
    RealDistribute(O.im, 1.0, f.im);
    RealDistribute(O.re, 1.0, f.im);
  }

  lemma HalfTwice(x: real, y: real)
    ensures (x / 2.0) * (2.0 * y) == x * y && (x / 2.0) * (-2.0 * y) == -(x * y)
  {
  }

  lemma MinusMul(a: C, b: C)
    ensures Mul(Sub(ZERO, a), b) == Sub(ZERO, Mul(a, b))
  {
  }

  /** A kernel of reals: its square is the kernel of the pairs. */
  ghost predicate RealKernel(theta: C, m: nat)
  {
    Norm(theta) == 1.0 && Power(theta, m) == C(-1.0, 0.0) && (m % 2 == 0 ==> Power(theta, m / 2) == I)
  }

  lemma SquareTurns(theta: C, m: nat)
    requires RealKernel(theta, m)
    ensures Norm(Mul(theta, theta)) == 1.0 && Power(Mul(theta, theta), m) == ONE
  {
    NormMul(theta, theta);
    PowerMul(theta, theta, m);
    MinusTurns(C(-1.0, 0.0));
  }

  /** The transforms of even and odd reals in the packed transform. */
  lemma PackedEntry(s: seq<C>, t: C, k: nat)
    ensures Transform(s, t, k) == Add(Transform(Evens(Reals(s)), t, k), Mul(I, Transform(Odds(Reals(s)), t, k)))
  {
    hide Transform, Mul;
    PairsApart(s);
    TransformLinear(I, Evens(Reals(s)), Odds(Reals(s)), t, k);
  }

  /** The mirror image of an entry. */
  lemma MirrorEntry(s: seq<C>, t: C, k: nat)
    requires Norm(t) == 1.0 && Power(t, |s|) == ONE && k <= |s|
    ensures Transform(Evens(Reals(s)), t, |s| - k) == Conj(Transform(Evens(Reals(s)), t, k))
    ensures Transform(Odds(Reals(s)), t, |s| - k) == Conj(Transform(Odds(Reals(s)), t, k))
  {
    hide *;
    PairsApart(s);
    var e, o := Evens(Reals(s)), Odds(Reals(s));
    RealSum(e, t, |s|, k, |s|);
    RealSum(o, t, |s|, k, |s|);
    TransformIsSum(e, t, k);
    TransformIsSum(o, t, k);
    TransformIsSum(e, t, |s| - k);
    TransformIsSum(o, t, |s| - k);
  }

  lemma RealEntry(s: seq<C>, theta: C, k: nat)
    ensures Transform(Reals(s), theta, k) ==
            Add(Transform(Evens(Reals(s)), Mul(theta, theta), k),
                Mul(Power(theta, k), Transform(Odds(Reals(s)), Mul(theta, theta), k)))
  {
    hide Transform, Mul;
    TransformSplits(Reals(s), theta, k);
  }

  lemma MirrorTurn(theta: C, m: nat, k: nat)
    requires RealKernel(theta, m) && k <= m
    ensures Power(theta, m - k) == Sub(ZERO, Conj(Power(theta, k)))
  {
    hide Power, Norm, Mul, Conj;
    var p := Power(theta, k);
    PowerAdd(theta, m - k, k);
    NormPower(theta, k);
    CMulAssoc(Power(theta, m - k), p, Conj(p));
    MulConj(p);
    MulOne(Power(theta, m - k));
    MulOne(Conj(p));
  }

  lemma AllAt(s: seq<C>, t: C, k: nat)
    requires k < |s|
    ensures All(s, t)[k] == Transform(s, t, k)
  {
    hide Transform;
  }

  /** The entry in the middle stays, and there the kernel is a quarter turn. */
  lemma MiddleEntry(c: seq<real>, ks: nat, z: seq<C>, theta: C, k: nat)
    requires Reaches(c, ks, |z|) && RealKernel(theta, |z|) && 0 < k && 2 * k == |z|
    ensures RealForward(c, ks, z)[k] == z[k] && Power(theta, k) == I
  {
    hide Power, Norm;
    assert |z| / 2 == k;
  }

  lemma ShareIs(c: seq<real>, ks: nat, m: nat, theta: C, q: nat)
    requires Reaches(c, ks, m) && HalfTable(c, ks, m, theta) && 0 < q < m / 2
    ensures Share(c, ks, m, q) == Halved(Add(ONE, Mul(I, Power(theta, q))))
  {
    hide Share, Halved, Add, Mul, Power;
  }

  /** rftfsub turns the transform of the pairs into the transform of the reals, except for the first entry,
      whose two parts are the transforms of the even and of the odd reals. */
  lemma RealTransform(c: seq<real>, ks: nat, s: seq<C>, theta: C, k: nat)
    requires Reaches(c, ks, |s|) && HalfTable(c, ks, |s|, theta) && RealKernel(theta, |s|) && 0 < k < |s|
    ensures RealForward(c, ks, All(s, Mul(theta, theta)))[k] == Transform(Reals(s), theta, k)
  {
    hide *;
    var m, t, z := |s|, Mul(theta, theta), All(s, Mul(theta, theta));
    var q := if 2 * k < m then k else m - k;
    EvenLength(c, ks, m);
    SquareTurns(theta, m);
    AllAt(s, t, k);
    AllAt(s, t, q);
    AllAt(s, t, m - q);
    MirrorTurn(theta, m, q);
    RealEntry(s, theta, k);
    PackedEntry(s, t, k);
    if 2 * k == m {
      MiddleEntry(c, ks, z, theta, k);
    } else {
      ShareIs(c, ks, m, theta, q);
      var E, O := Transform(Evens(Reals(s)), t, q), Transform(Odds(Reals(s)), t, q);
      ForwardPair(c, ks, z, q);
      PackedEntry(s, t, q);
      PackedEntry(s, t, m - q);
      MirrorEntry(s, t, q);
      PairMeans(E, O, Power(theta, q));
    }
  }
}
