/** cft1st, cftmdl, cftfsub, cftbsub and cdft: the complex transform, in place, from a table of factors. */
module Cft {
  import opened Words
  import opened Complex
  import opened BitReversal
  import opened Dft
  import opened FourierLaws
  import opened Passes
  import opened Butterflies

  /** The blocks below B are passed through; the others are as they were. */
  ghost predicate PassState(u: seq<C>, h: nat, s0: seq<C>, s: seq<C>, pos: nat, B: nat)
  {
    h > 0 && pos == 4 * h * B && pos <= |s| == |s0| && s[pos..] == s0[pos..] &&
    Pass(u, h, s0, 0) == s[..pos] + Pass(u, h, s0[pos..], B)
  }

  lemma PassStarts(u: seq<C>, h: nat, s: seq<C>)
    requires h > 0
    ensures PassState(u, h, s, s, 0, 0)
  {
    hide Pass;
    assert s[0..] == s && s[..0] == [];
  }

  lemma PassStep(u: seq<C>, h: nat, s0: seq<C>, s: seq<C>, pos: nat, B: nat)
    requires PassState(u, h, s0, s, pos, B) && pos + 4 * h <= |s|
    ensures PassState(u, h, s0, AfterRows(s, pos, h, Factor(u, 2 * B), Factor(u, B)), pos + 4 * h, B + 1)
  {
    hide Pass, Factor, Quad, AfterRows;
    var W1, W2 := Factor(u, 2 * B), Factor(u, B);
    var q0, q1, q2, q3, t := s[pos..pos + h], s[pos + h..pos + 2 * h], s[pos + 2 * h..pos + 3 * h],
      s[pos + 3 * h..pos + 4 * h], s[pos + 4 * h..];
    InFive(s, pos, h);
    InFive(s0, pos, h);
    UnfoldPass(u, h, q0, q1, q2, q3, t, B);
    AfterRowsSplits(s, pos, h, W1, W2);
    OneMoreBlock(u, h, s0, AfterRows(s, pos, h, W1, W2), pos, B, s[..pos], Quad(q0, q1, q2, q3, W1, W2), t);
  }

  lemma OneMoreBlock(u: seq<C>, h: nat, s0: seq<C>, r: seq<C>, pos: nat, B: nat, d: seq<C>, q: seq<C>, t: seq<C>)
    requires h > 0 && pos == 4 * h * B && pos + 4 * h <= |r| == |s0| && r[..pos + 4 * h] == d + q
    requires r[pos + 4 * h..] == t == s0[pos + 4 * h..]
    requires Pass(u, h, s0, 0) == d + (q + Pass(u, h, t, B + 1))
    ensures PassState(u, h, s0, r, pos + 4 * h, B + 1)
  {
    hide Pass;
    assert 4 * h * (B + 1) == pos + 4 * h;
    assert d + (q + Pass(u, h, t, B + 1)) == (d + q) + Pass(u, h, t, B + 1);
  }

  lemma InFive(s: seq<C>, pos: nat, h: nat)
    requires pos + 4 * h <= |s|
    ensures var q0, q1, q2, q3 :=
        s[pos..pos + h], s[pos + h..pos + 2 * h], s[pos + 2 * h..pos + 3 * h], s[pos + 3 * h..pos + 4 * h];
      s[pos..] == q0 + (q1 + (q2 + (q3 + s[pos + 4 * h..])))
    ensures s[pos..][4 * h..] == s[pos + 4 * h..]
  {
  }

  lemma AfterRowsSplits(s: seq<C>, pos: nat, h: nat, W1: C, W2: C)
    requires pos + 4 * h <= |s|
    ensures var r := AfterRows(s, pos, h, W1, W2);
      r[..pos + 4 * h] == s[..pos] + Quad(s[pos..pos + h], s[pos + h..pos + 2 * h], s[pos + 2 * h..pos + 3 * h],
                                          s[pos + 3 * h..pos + 4 * h], W1, W2) &&
      r[pos + 4 * h..] == s[pos + 4 * h..]
  {
    hide Quad;
  }

  lemma PassEnds(u: seq<C>, h: nat, s0: seq<C>, s: seq<C>, B: nat)
    requires PassState(u, h, s0, s, |s|, B)
    ensures s == Pass(u, h, s0, 0)
  {
    assert s0[|s|..] == [] && s[..|s|] == s;
  }

  /** One block: the next B. */
  method Block(t: Twiddle, n: nat, a: array<real>, k: nat, l: nat,
               ghost u: seq<C>, ghost h: nat, ghost s0: seq<C>, ghost pos: nat, ghost B: nat)
    requires n <= a.Length && Fits(t) && k == 2 * pos && l == 2 * h && pos + 4 * h <= n / 2
    requires First(t) == Factor(u, 2 * B) && Second(t) == Factor(u, B)
    requires PassState(u, h, s0, Entries(a, n), pos, B)
    modifies a
    ensures PassState(u, h, s0, Entries(a, n), pos + 4 * h, B + 1)
    ensures forall i :: n <= i < a.Length ==> a[i] == old(a[i])
  {
    hide *;
    PassStep(u, h, s0, Entries(a, n), pos, B);
    Rows(t, n, a, k, l, pos, h);
  }

  /** The third factor from the other two, by the identity for three times an angle. */
  lemma TripleAngle(w1: C, w2: C)
    requires Norm(w1) == 1.0 && Mul(w1, w1) == w2
    ensures C(w1.re - 2.0 * w2.im * w1.im, 2.0 * w2.im * w1.re - w1.im) == Mul(w1, w2)
  {
    var r, i := w1.re, w1.im;
    var a, b, d := r * r, i * i, r * i;
    assert a + b == 1.0 && w2.re == a - b && w2.im == d + d;
    RealDistribute(r, a, b);
    RealDistribute(i, a, b);
    Triple(r, i, i);
    Triple(i, r, r);
    Triple(r, r, i);
    Triple(i, i, r);
    assert d * i == r * b && d * r == i * a;
  }

  /** The third factor has modulus one when the first does and only the imaginary parts keep the double-angle law. */
  lemma ThirdIsUnit(w1: C, w2: C)
    requires Norm(w1) == 1.0 && 2.0 * (w1.re * w1.im) == w2.im
    ensures Norm(C(w1.re - 2.0 * w2.im * w1.im, 2.0 * w2.im * w1.re - w1.im)) == 1.0
  {
    ThirdNorm(w1.re, w1.im, w2.im);
  }

  lemma ThirdNorm(r: real, i: real, t: real)
    requires r * r + i * i == 1.0 && 2.0 * (r * i) == t
    ensures (r - 2.0 * t * i) * (r - 2.0 * t * i) + (2.0 * t * r - i) * (2.0 * t * r - i) == 1.0
  {
    var x, y := t * i, t * r;
    assert (r - 2.0 * x) * (r - 2.0 * x) == r * r - 4.0 * (r * x) + 4.0 * (x * x);
    assert (2.0 * y - i) * (2.0 * y - i) == 4.0 * (y * y) - 4.0 * (i * y) + i * i;
    assert r * x == t * (r * i) && i * y == t * (r * i);
    assert x * x == (t * t) * (i * i) && y * y == (t * t) * (r * r);
    RealDistribute(t * t, r * r, i * i);
    assert 4.0 * (t * (r * i)) == 2.0 * (t * t);
  }

  /** The square root of i that the second block uses has equal real and imaginary parts. */
  lemma EighthTurn(w: C)
    requires Mul(w, w) == I
    ensures w.re == w.im
  {
    RealDistribute(w.re - w.im, w.re, w.im);
    assert (w.re - w.im) * (w.re + w.im) == 0.0;
  }

  /** The factors of blocks 2q and 2q + 1, from the table. */
  method PairFactors(w: array<real>, nw: nat, k1: nat, ghost q: nat) returns (even: Twiddle, odd: Twiddle)
    requires nw <= w.Length && DoubleAngle(Entries(w, nw)) && k1 == 2 * q && q > 0 && 2 * q + 1 < nw / 2
    ensures var u := Entries(w, nw);
      Fits(even) && First(even) == Factor(u, 2 * (2 * q)) && Second(even) == Factor(u, 2 * q) &&
      Fits(odd) && First(odd) == Factor(u, 2 * (2 * q + 1)) && Second(odd) == Factor(u, 2 * q + 1)
  {
    hide *;
    ghost var u := Entries(w, nw);
    var k2 := 2 * k1;
    var wk2r, wk2i := GetEntry(nw, w, k1, q);
    var wk1r, wk1i := GetEntry(nw, w, k2, 2 * q);
    FactorsAre(u, q);
    even := Even(C(wk1r, wk1i), C(wk2r, wk2i), C(wk1r - 2.0 * wk2i * wk1i, 2.0 * wk2i * wk1r - wk1i));
    EvenFits(wk1r, wk1i, wk2r, wk2i, even);
    wk1r, wk1i := GetEntry(nw, w, k2 + 2, 2 * q + 1);
    odd := Odd(C(wk1r, wk1i), C(wk2r, wk2i), C(wk1r - 2.0 * wk2r * wk1i, 2.0 * wk2r * wk1r - wk1i));
    OddFits(wk1r, wk1i, wk2r, wk2i, odd);
  }

  lemma EvenFits(x: real, y: real, r: real, i: real, t: Twiddle)
    requires Norm(C(x, y)) == 1.0 && Mul(C(x, y), C(x, y)) == C(r, i)
    requires t == Even(C(x, y), C(r, i), C(x - 2.0 * i * y, 2.0 * i * x - y))
    ensures Fits(t) && First(t) == C(x, y) && Second(t) == C(r, i)
  {
    TripleAngle(C(x, y), C(r, i));
  }

  lemma OddFits(x: real, y: real, r: real, i: real, t: Twiddle)
    requires Norm(C(x, y)) == 1.0 && Mul(C(x, y), C(x, y)) == Mul(I, C(r, i))
    requires t == Odd(C(x, y), C(r, i), C(x - 2.0 * r * y, 2.0 * r * x - y))
    ensures Fits(t) && First(t) == C(x, y) && Second(t) == Mul(I, C(r, i))
  {
    TimesI(r, i);
    TripleAngle(C(x, y), Mul(I, C(r, i)));
  }

  /** What the table holds for block b. */
  lemma AngleAt(u: seq<C>, b: nat)
    requires DoubleAngle(u) && 0 < b < |u|
    ensures Norm(u[b]) == 1.0 && Mul(u[b], u[b]) == Factor(u, b)
    ensures Factor(u, 2 * b) == u[b] && Factor(u, 2 * b + 1) == Mul(I, u[b])
  {
    hide Mul, Norm, Factor;
    FactorFromTable(u, b);
  }

  lemma FactorFromTable(u: seq<C>, b: nat)
    requires 0 < b < |u|
    ensures Factor(u, 2 * b) == u[b] && Factor(u, 2 * b + 1) == Mul(I, u[b])
  {
    hide Mul;
  }

  lemma FactorsAre(u: seq<C>, q: nat)
    requires DoubleAngle(u) && q > 0 && 2 * q + 1 < |u|
    ensures Factor(u, 2 * (2 * q)) == u[2 * q] && Factor(u, 2 * q) == u[q]
    ensures Factor(u, 2 * (2 * q + 1)) == u[2 * q + 1] && Factor(u, 2 * q + 1) == Mul(I, u[q])
    ensures Norm(u[2 * q]) == 1.0 && Mul(u[2 * q], u[2 * q]) == u[q]
    ensures Norm(u[2 * q + 1]) == 1.0 && Mul(u[2 * q + 1], u[2 * q + 1]) == Mul(I, u[q])
  {
    hide *;
    AngleAt(u, q);
    AngleAt(u, 2 * q);
    AngleAt(u, 2 * q + 1);
  }

  /** The first two blocks have no factors and the factors 1 and i of the eighth part of a turn. */
  method FirstBlocks(n: nat, l: nat, a: array<real>, w: array<real>, nw: nat, ghost h: nat)
    requires n <= a.Length && a != w && nw <= w.Length && nw >= 4 && DoubleAngle(Entries(w, nw))
    requires l == 2 * h && h > 0 && 8 * h <= n / 2
    modifies a
    ensures PassState(Entries(w, nw), h, old(Entries(a, n)), Entries(a, n), 8 * h, 2)
    ensures forall i :: n <= i < a.Length ==> a[i] == old(a[i])
  {
    hide *;
    ghost var u, s0 := Entries(w, nw), Entries(a, n);
    var m := 4 * l;
    var wk1r, wk1i := GetEntry(nw, w, 2, 1);
    FirstFactors(u, wk1r);
    PassStarts(u, h, s0);
    Block(Plain, n, a, 0, l, u, h, s0, 0, 0);
    Block(Eighth(wk1r), n, a, m, l, u, h, s0, 4 * h, 1);
  }

  lemma FirstFactors(u: seq<C>, wk1r: real)
    requires DoubleAngle(u) && |u| >= 2 && u[1].re == wk1r
    ensures Fits(Plain) && First(Plain) == Factor(u, 0) && Second(Plain) == Factor(u, 0)
    ensures Fits(Eighth(wk1r)) && First(Eighth(wk1r)) == Factor(u, 2) && Second(Eighth(wk1r)) == Factor(u, 1)
  {
    assert Factor(u, 1) == I && Factor(u, 0) == ONE;
    AngleAt(u, 1);
    hide Factor;
    EighthTurn(u[1]);
  }

  lemma RoomForPair(h: nat, B: nat, nb: nat, pos: nat, N: nat)
    requires pos == 4 * h * B && N == 4 * h * nb && pos < N && B % 2 == 0 && nb % 2 == 0
    ensures pos + 8 * h <= N && B + 2 <= nb
  {
    if nb < B + 2 {
      MulMono(4 * h, nb, B);
    }
    MulMono(4 * h, B + 2, nb);
    Distribute(4 * h, B, 2);
  }

  /** Blocks B and B + 1 with factors from the table. */
  method BlockPair(n: nat, l: nat, a: array<real>, w: array<real>, nw: nat, k: nat, k1: nat,
                   ghost h: nat, ghost s0: seq<C>, ghost pos: nat, ghost q: nat)
    requires n <= a.Length && a != w && nw <= w.Length && DoubleAngle(Entries(w, nw))
    requires l == 2 * h && k == 2 * pos && k1 == 2 * q && q > 0 && 2 * q + 1 < nw / 2 && pos + 8 * h <= n / 2
    requires PassState(Entries(w, nw), h, s0, Entries(a, n), pos, 2 * q)
    modifies a
    ensures PassState(Entries(w, nw), h, s0, Entries(a, n), pos + 8 * h, 2 * q + 2)
    ensures forall i :: n <= i < a.Length ==> a[i] == old(a[i])
  {
    hide *;
    var even, odd := PairFactors(w, nw, k1, q);
    Block(even, n, a, k, l, Entries(w, nw), h, s0, pos, 2 * q);
    Block(odd, n, a, k + 4 * l, l, Entries(w, nw), h, s0, pos + 4 * h, 2 * q + 1);
  }

  /** A pass over all blocks with quarters of h numbers. */
  method Cftmdl(n: nat, l: nat, a: array<real>, w: array<real>, nw: nat, ghost h: nat, ghost nb: nat)
    requires n <= a.Length && a != w && nw <= w.Length && nw >= 4 && DoubleAngle(Entries(w, nw))
    requires l == 2 * h && h > 0 && n == 2 * (4 * h * nb) && 2 <= nb <= nw / 2 && nb % 2 == 0
    modifies a
    ensures Entries(a, n) == Pass(Entries(w, nw), h, old(Entries(a, n)), 0)
    ensures forall i :: n <= i < a.Length ==> a[i] == old(a[i])
  {
    hide *;
    ghost var s0, N := Entries(a, n), 4 * h * nb;
    MulMono(4 * h, 2, nb);
    FirstBlocks(n, l, a, w, nw, h);
    var m := 4 * l;
    var k1 := 0;
    var m2 := 2 * m;
    ghost var q := 1;
    var k := m2;
    while k < n
      invariant k1 == 2 * (q - 1) && 1 <= q && k == 2 * (4 * h * (2 * q)) <= n
      invariant PassState(Entries(w, nw), h, s0, Entries(a, n), 4 * h * (2 * q), 2 * q)
      invariant forall i :: n <= i < a.Length ==> a[i] == old(a[i])
    {
      RoomForPair(h, 2 * q, nb, 4 * h * (2 * q), N);
      k1 := k1 + 2;
      BlockPair(n, l, a, w, nw, k, k1, h, s0, 4 * h * (2 * q), q);
      k := k + m2;
      Distribute(4 * h, 2 * q, 2);
      q := q + 1;
    }
    PassEnds(Entries(w, nw), h, s0, Entries(a, n), 2 * q);
  }

  /** The first pass: quarters of one number. */
  method Cft1st(n: nat, a: array<real>, w: array<real>, nw: nat, ghost nb: nat)
    requires n <= a.Length && a != w && nw <= w.Length && nw >= 4 && DoubleAngle(Entries(w, nw))
    requires n == 8 * nb && 2 <= nb <= nw / 2 && nb % 2 == 0
    modifies a
    ensures Entries(a, n) == Pass(Entries(w, nw), 1, old(Entries(a, n)), 0)
    ensures forall i :: n <= i < a.Length ==> a[i] == old(a[i])
  {
    hide *;
    ghost var s0 := Entries(a, n);
    FirstBlocks(n, 2, a, w, nw, 1);
    var k1 := 0;
    ghost var q, half := 1, n / 2;
    assert half == 4 * nb;
    var j := 16;
    while j < n
      invariant k1 == 2 * (q - 1) && 1 <= q && j == 16 * q <= n
      invariant PassState(Entries(w, nw), 1, s0, Entries(a, n), 8 * q, 2 * q)
      invariant forall i :: n <= i < a.Length ==> a[i] == old(a[i])
    {
      k1 := k1 + 2;
      BlockPair(n, 2, a, w, nw, j, k1, 1, s0, 8 * q, q);
      j := j + 16;
      q := q + 1;
    }
    PassEnds(Entries(w, nw), 1, s0, Entries(a, n), 2 * q);
  }
}
