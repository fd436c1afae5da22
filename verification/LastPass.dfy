/** The last pass of the transforms: radix 4 or radix 2, without factors, plain or conjugating. */
module LastPass {
  import opened Complex
  import opened BitReversal
  import opened Dft
  import opened Passes
  import opened Butterflies

  function TurnAll(conj: bool, s: seq<C>): (r: seq<C>)
    ensures |r| == |s|
  {
    if conj then Conjugates(s) else s
  }

  // ----- radix 2 -----

  /** Entry p of 2h numbers when the pairs below r are done. */
  function PairValue(conj: bool, s: seq<C>, h: nat, r: nat, p: nat): C
    requires |s| == 2 * h && p < |s|
  {
    if p < h then
      if p < r then Turn(conj, Add(s[p], s[h + p])) else s[p]
    else
      if p - h < r then Turn(conj, Mul(ONE, Sub(s[p - h], s[p]))) else s[p]
  }

  ghost predicate PairsDone(conj: bool, s0: seq<C>, s: seq<C>, h: nat, r: nat)
  {
    |s0| == |s| == 2 * h && r <= h && forall p: nat :: p < |s| ==> s[p] == PairValue(conj, s0, h, r, p)
  }

  lemma PairStep(conj: bool, s0: seq<C>, s: seq<C>, h: nat, r: nat, x: C, y: C)
    requires PairsDone(conj, s0, s, h, r) && r < h
    requires x == Turn(conj, Add(s[r], s[h + r])) && y == Turn(conj, Sub(s[r], s[h + r]))
    ensures PairsDone(conj, s0, s[r := x][h + r := y], h, r + 1)
  {
    MulOne(Sub(s[r], s[h + r]));
    hide Mul, Add, Sub, Turn;
  }

  lemma PairsEnd(conj: bool, s0: seq<C>, s: seq<C>, h: nat)
    requires PairsDone(conj, s0, s, h, h)
    ensures s == TurnAll(conj, Pairwise(s0[..h], s0[h..], ONE))
  {
    hide Mul, Add, Sub;
  }

  lemma PairsStart(conj: bool, s: seq<C>, h: nat)
    requires |s| == 2 * h
    ensures PairsDone(conj, s, s, h, 0)
  {
  }

  method OnePair(conj: bool, n: nat, a: array<real>, j: nat, l: nat, ghost s0: seq<C>, ghost h: nat, ghost r: nat)
    requires n <= a.Length && l == 2 * h && n == 4 * h && r < h && j == 2 * r
    requires PairsDone(conj, s0, Entries(a, n), h, r)
    modifies a
    ensures PairsDone(conj, s0, Entries(a, n), h, r + 1)
    ensures forall i :: n <= i < a.Length ==> a[i] == old(a[i])
  {
    hide PairsDone, Entries;
    var j1 := j + l;
    var ar, ai := GetEntry(n, a, j, r);
    var br, bi := GetEntry(n, a, j1, h + r);
    var x, y;
    if conj {
      x, y := C(ar + br, -ai - bi), C(ar - br, -ai + bi);
    } else {
      x, y := C(ar + br, ai + bi), C(ar - br, ai - bi);
    }
    PairStep(conj, s0, Entries(a, n), h, r, x, y);
    SetEntry(n, a, j, x, r);
    SetEntry(n, a, j1, y, h + r);
  }

  /** Pairs of entries l apart: sum and difference, conjugated by the backward transform. */
  method LastPairs(conj: bool, n: nat, a: array<real>, l: nat, ghost h: nat)
    requires n <= a.Length && l == 2 * h && n == 4 * h
    modifies a
    ensures Entries(a, n) == TurnAll(conj, Pairwise(old(Entries(a, n))[..h], old(Entries(a, n))[h..], ONE))
    ensures forall i :: n <= i < a.Length ==> a[i] == old(a[i])
  {
    hide *;
    ghost var s0 := Entries(a, n);
    ghost var r := 0;
    PairsStart(conj, s0, h);
    var j := 0;
    while j < l
      invariant j == 2 * r && r <= h
      invariant PairsDone(conj, s0, Entries(a, n), h, r)
      invariant forall i :: n <= i < a.Length ==> a[i] == old(a[i])
    {
      OnePair(conj, n, a, j, l, s0, h, r);
      j := j + 2;
      r := r + 1;
    }
    PairsEnd(conj, s0, Entries(a, n), h);
  }

  // ----- radix 4, backward -----

  /** The row that entry p of four quarters is in. */
  function RowOf(h: nat, p: nat): nat
    requires p < 4 * h
  {
    if p < h then p else if p < 2 * h then p - h else if p < 3 * h then p - 2 * h else p - 3 * h
  }

  /** s with the rows below r conjugated. */
  function Unturned(s: seq<C>, h: nat, r: nat): (t: seq<C>)
    requires |s| == 4 * h
    ensures |t| == |s|
  {
    seq(|s|, p requires 0 <= p < |s| => if RowOf(h, p) < r then Conj(s[p]) else s[p])
  }

  lemma UnturnedStep(s: seq<C>, h: nat, r: nat, o0: C, o1: C, o2: C, o3: C)
    requires |s| == 4 * h && r < h
    ensures var t := Unturned(s, h, r);
      t[r] == s[r] && t[h + r] == s[h + r] && t[2 * h + r] == s[2 * h + r] && t[3 * h + r] == s[3 * h + r] &&
      Unturned(s[r := o0][2 * h + r := o2][h + r := o1][3 * h + r := o3], h, r + 1) ==
      t[r := Conj(o0)][2 * h + r := Conj(o2)][h + r := Conj(o1)][3 * h + r := Conj(o3)]
  {
    hide Conj;
  }

  lemma UnturnedAll(s: seq<C>, h: nat)
    requires |s| == 4 * h
    ensures s == Conjugates(Unturned(s, h, h)) && Unturned(s, h, 0) == s
  {
    forall p: nat | p < |s| ensures s[p] == Conjugates(Unturned(s, h, h))[p] {
    }
  }

  lemma BackwardResults(a: C, b: C, c: C, d: C, x0: C, x1: C, x2: C, x3: C)
    requires x0 == C(a.re + b.re, -a.im - b.im) && x1 == C(a.re - b.re, -a.im + b.im)
    requires x2 == C(c.re + d.re, c.im + d.im) && x3 == C(c.re - d.re, c.im - d.im)
    ensures Conj(C(x0.re + x2.re, x0.im - x2.im)) == Out0(a, b, c, d)
    ensures Conj(C(x1.re - x3.im, x1.im - x3.re)) == Out1(a, b, c, d, ONE)
    ensures Conj(C(x0.re - x2.re, x0.im + x2.im)) == Out2(a, b, c, d, ONE)
    ensures Conj(C(x1.re + x3.im, x1.im + x3.re)) == Out3(a, b, c, d, ONE, ONE)
  {
    TimesI(x3.re, x3.im);
    MulOne(ONE);
    MulOne(Add(Sub(a, b), Mul(I, Sub(c, d))));
    MulOne(Sub(Add(a, b), Add(c, d)));
    MulOne(Sub(Sub(a, b), Mul(I, Sub(c, d))));
    hide Mul;
  }

  lemma BackwardStep(s0: seq<C>, s: seq<C>, h: nat, r: nat, o0: C, o1: C, o2: C, o3: C)
    requires |s| == 4 * h && r < h && RowsDone(s0, Unturned(s, h, r), 0, h, r, ONE, ONE)
    requires Conj(o0) == Out0(s[r], s[h + r], s[2 * h + r], s[3 * h + r])
    requires Conj(o1) == Out1(s[r], s[h + r], s[2 * h + r], s[3 * h + r], ONE)
    requires Conj(o2) == Out2(s[r], s[h + r], s[2 * h + r], s[3 * h + r], ONE)
    requires Conj(o3) == Out3(s[r], s[h + r], s[2 * h + r], s[3 * h + r], ONE, ONE)
    ensures RowsDone(s0, Unturned(s[r := o0][2 * h + r := o2][h + r := o1][3 * h + r := o3], h, r + 1), 0, h, r + 1,
                     ONE, ONE)
  {
    hide RowsDone, Unturned, Out0, Out1, Out2, Out3, Conj;
    UnturnedStep(s, h, r, o0, o1, o2, o3);
    RowStep(s0, Unturned(s, h, r), 0, h, r, ONE, ONE);
  }

  /** One butterfly of the last backward pass: the plain results, conjugated. */
  method BackwardButterfly(n: nat, a: array<real>, j: nat, l: nat, ghost s0: seq<C>, ghost h: nat, ghost r: nat)
    requires n <= a.Length && n == 8 * h && l == 2 * h && j == 2 * r && r < h
    requires RowsDone(s0, Unturned(Entries(a, n), h, r), 0, h, r, ONE, ONE)
    modifies a
    ensures RowsDone(s0, Unturned(Entries(a, n), h, r + 1), 0, h, r + 1, ONE, ONE)
    ensures forall i :: n <= i < a.Length ==> a[i] == old(a[i])
  {
    hide *;
    var j1 := j + l;
    var j2 := j1 + l;
    var j3 := j2 + l;
    ghost var s := Entries(a, n);
    var ar, ai := GetEntry(n, a, j, r);
    var br, bi := GetEntry(n, a, j1, h + r);
    var cr, ci := GetEntry(n, a, j2, 2 * h + r);
    var dr, di := GetEntry(n, a, j3, 3 * h + r);
    var x0r, x0i, x1r, x1i := ar + br, -ai - bi, ar - br, -ai + bi;
    var x2r, x2i, x3r, x3i := cr + dr, ci + di, cr - dr, ci - di;
    var o0, o2 := C(x0r + x2r, x0i - x2i), C(x0r - x2r, x0i + x2i);
    var o1, o3 := C(x1r - x3i, x1i - x3r), C(x1r + x3i, x1i + x3r);
    BackwardResults(C(ar, ai), C(br, bi), C(cr, ci), C(dr, di), C(x0r, x0i), C(x1r, x1i), C(x2r, x2i), C(x3r, x3i));
    BackwardStep(s0, s, h, r, o0, o1, o2, o3);
    SetEntry(n, a, j, o0, r);
    SetEntry(n, a, j2, o2, 2 * h + r);
    SetEntry(n, a, j1, o1, h + r);
    SetEntry(n, a, j3, o3, 3 * h + r);
  }

  /** The last backward pass over four quarters: the plain pass, conjugated. */
  method BackwardFour(n: nat, a: array<real>, l: nat, ghost h: nat)
    requires n <= a.Length && n == 8 * h && l == 2 * h
    modifies a
    ensures Entries(a, n) == Conjugates(AfterRows(old(Entries(a, n)), 0, h, ONE, ONE))
    ensures forall i :: n <= i < a.Length ==> a[i] == old(a[i])
  {
    hide *;
    ghost var s0 := Entries(a, n);
    ghost var r := 0;
    RowsStart(s0, 0, h, ONE, ONE);
    UnturnedAll(s0, h);
    var j := 0;
    while j < l
      invariant j == 2 * r && r <= h
      invariant RowsDone(s0, Unturned(Entries(a, n), h, r), 0, h, r, ONE, ONE)
      invariant forall i :: n <= i < a.Length ==> a[i] == old(a[i])
    {
      BackwardButterfly(n, a, j, l, s0, h, r);
      j := j + 2;
      r := r + 1;
    }
    RowsEnd(s0, Unturned(Entries(a, n), h, h), 0, h, ONE, ONE);
    UnturnedAll(Entries(a, n), h);
  }
}
