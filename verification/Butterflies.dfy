/** The radix-4 butterflies of the passes, in place, and the rows of a block. */
module Butterflies {
  import opened Complex
  import opened Passes

  /** The factors of a block as the loops hold them: none in the first block, one real number in the second,
      then three in pairs of blocks, the second of a pair with the middle factor turned by i. */
  datatype Twiddle = Plain | Eighth(c: real) | Even(w1: C, w2: C, w3: C) | Odd(w1: C, w2: C, w3: C)

  function First(t: Twiddle): C
  {
    match t
    case Plain => ONE
    case Eighth(c) => C(c, c)
    case Even(w1, _, _) => w1
    case Odd(w1, _, _) => w1
  }

  function Second(t: Twiddle): C
  {
    match t
    case Plain => ONE
    case Eighth(_) => I
    case Even(_, w2, _) => w2
    case Odd(_, w2, _) => Mul(I, w2)
  }

  predicate Fits(t: Twiddle)
  {
    match t
    case Even(w1, w2, w3) => w3 == Mul(w1, w2)
    case Odd(w1, w2, w3) => w3 == Mul(w1, Mul(I, w2))
    case _ => true
  }

  /** The four results in real and imaginary parts, from sums and differences x0 to x3. */
  method Results(t: Twiddle, x0r: real, x0i: real, x1r: real, x1i: real, x2r: real, x2i: real, x3r: real, x3i: real)
    returns (a: C, b: C, c: C, d: C)
    requires Fits(t)
    ensures a == Add(C(x0r, x0i), C(x2r, x2i)) && c == Mul(Second(t), Sub(C(x0r, x0i), C(x2r, x2i)))
    ensures b == Mul(First(t), Add(C(x1r, x1i), Mul(I, C(x3r, x3i))))
    ensures d == Mul(Mul(First(t), Second(t)), Sub(C(x1r, x1i), Mul(I, C(x3r, x3i))))
  {
    hide Mul, Add, Sub;
    SumsAre(x0r, x0i, x2r, x2i);
    SumsAre(x1r, x1i, -x3i, x3r);
    TimesI(x3r, x3i);
    a := C(x0r + x2r, x0i + x2i);
    match t {
      case Plain =>
        c := C(x0r - x2r, x0i - x2i);
        b := C(x1r - x3i, x1i + x3r);
        d := C(x1r + x3i, x1i - x3r);
        MulOne(c);
        MulOne(b);
        MulOne(d);
        MulOne(ONE);
      case Eighth(wk1r) =>
        c := C(x2i - x0i, x0r - x2r);
        TimesI(x0r - x2r, x0i - x2i);
        b := TurnedEighth(wk1r, x1r - x3i, x1i + x3r);
        d := TurnedThird(wk1r, x3i + x1r, x3r - x1i);
      case Even(w1, w2, w3) =>
        c := Turned(w2, x0r - x2r, x0i - x2i);
        b := Turned(w1, x1r - x3i, x1i + x3r);
        d := Turned(w3, x1r + x3i, x1i - x3r);
      case Odd(w1, w2, w3) =>
        c := TurnedOn(w2, x0r - x2r, x0i - x2i);
        b := Turned(w1, x1r - x3i, x1i + x3r);
        d := Turned(w3, x1r + x3i, x1i - x3r);
    }
  }

  method Turned(w: C, y0r: real, y0i: real) returns (z: C)
    ensures z == Mul(w, C(y0r, y0i))
  {
    z := C(w.re * y0r - w.im * y0i, w.re * y0i + w.im * y0r);
  }

  /** With a quarter turn more. */
  method TurnedOn(w: C, y0r: real, y0i: real) returns (z: C)
    ensures z == Mul(Mul(I, w), C(y0r, y0i))
  {
    TimesI(w.re, w.im);
    z := C(-w.im * y0r - w.re * y0i, -w.im * y0i + w.re * y0r);
  }

  /** The second block, whose factor has equal parts. */
  method TurnedEighth(wk1r: real, y0r: real, y0i: real) returns (z: C)
    ensures z == Mul(C(wk1r, wk1r), C(y0r, y0i))
  {
    z := C(wk1r * (y0r - y0i), wk1r * (y0r + y0i));
    EighthTimes(wk1r, y0r, y0i);
  }

  method TurnedThird(wk1r: real, y0r: real, y0i: real) returns (z: C)
    ensures z == Mul(Mul(C(wk1r, wk1r), I), C(y0r, -y0i))
  {
    z := C(wk1r * (y0i - y0r), wk1r * (y0i + y0r));
    EighthThird(wk1r, y0r, y0i);
  }

  lemma SumsAre(x: real, y: real, x': real, y': real)
    ensures Add(C(x, y), C(x', y')) == C(x + x', y + y') && Sub(C(x, y), C(x', y')) == C(x - x', y - y')
  {
  }

  lemma EighthTimes(c: real, x: real, y: real)
    ensures Mul(C(c, c), C(x, y)) == C(c * (x - y), c * (x + y))
  {
    RealDistribute(c, x, y);
  }

  lemma EighthThird(c: real, x: real, y: real)
    ensures Mul(Mul(C(c, c), I), C(x, -y)) == C(c * (y - x), c * (y + x))
  {
    MulComm(C(c, c), I);
    TimesI(c, c);
    RealDistribute(c, y, x);
    assert c * (-y) == -(c * y) && (-c) * (-y) == c * y && (-c) * x == -(c * x);
  }

  /** The sequence after one butterfly. */
  function Turned4(s: seq<C>, p0: nat, p1: nat, p2: nat, p3: nat, W1: C, W2: C): (r: seq<C>)
    requires p0 < |s| && p1 < |s| && p2 < |s| && p3 < |s|
    ensures |r| == |s|
  {
    var z0, z1, z2, z3 := s[p0], s[p1], s[p2], s[p3];
    s[p0 := Out0(z0, z1, z2, z3)][p2 := Out2(z0, z1, z2, z3, W2)]
     [p1 := Out1(z0, z1, z2, z3, W1)][p3 := Out3(z0, z1, z2, z3, W1, W2)]
  }

  method SetEntry(n: nat, a: array<real>, j: nat, z: C, ghost p: nat)
    requires n <= a.Length && j == 2 * p && p < n / 2
    modifies a
    ensures Entries(a, n) == old(Entries(a, n))[p := z]
    ensures forall i :: n <= i < a.Length ==> a[i] == old(a[i])
  {
    a[j], a[j + 1] := z.re, z.im;
  }

  method GetEntry(n: nat, a: array<real>, j: nat, ghost p: nat) returns (x: real, y: real)
    requires n <= a.Length && j == 2 * p && p < n / 2
    ensures C(x, y) == Entries(a, n)[p]
  {
    x, y := a[j], a[j + 1];
  }

  lemma OutsAre(z0: C, z1: C, z2: C, z3: C, W1: C, W2: C, x0: C, x1: C, x2: C, x3: C)
    requires x0 == Add(z0, z1) && x1 == Sub(z0, z1) && x2 == Add(z2, z3) && x3 == Sub(z2, z3)
    ensures Out0(z0, z1, z2, z3) == Add(x0, x2) && Out1(z0, z1, z2, z3, W1) == Mul(W1, Add(x1, Mul(I, x3)))
    ensures Out2(z0, z1, z2, z3, W2) == Mul(W2, Sub(x0, x2))
    ensures Out3(z0, z1, z2, z3, W1, W2) == Mul(Mul(W1, W2), Sub(x1, Mul(I, x3)))
  {
  }

  /** One butterfly on the entries at j, j1, j2 and j3. */
  method Butterfly(t: Twiddle, n: nat, a: array<real>, j: nat, j1: nat, j2: nat, j3: nat,
                   ghost p0: nat, ghost p1: nat, ghost p2: nat, ghost p3: nat)
    requires n <= a.Length && Fits(t)
    requires j == 2 * p0 && j1 == 2 * p1 && j2 == 2 * p2 && j3 == 2 * p3 && p0 < p1 < p2 < p3 < n / 2
    modifies a
    ensures Entries(a, n) == Turned4(old(Entries(a, n)), p0, p1, p2, p3, First(t), Second(t))
    ensures forall i :: n <= i < a.Length ==> a[i] == old(a[i])
  {
    hide First, Second, Fits, Mul, Out0, Out1, Out2, Out3, Entries;
    var ar, ai := GetEntry(n, a, j, p0);
    var br, bi := GetEntry(n, a, j1, p1);
    var cr, ci := GetEntry(n, a, j2, p2);
    var dr, di := GetEntry(n, a, j3, p3);
    var x0r, x0i, x1r, x1i := ar + br, ai + bi, ar - br, ai - bi;
    var x2r, x2i, x3r, x3i := cr + dr, ci + di, cr - dr, ci - di;
    OutsAre(C(ar, ai), C(br, bi), C(cr, ci), C(dr, di), First(t), Second(t),
      C(x0r, x0i), C(x1r, x1i), C(x2r, x2i), C(x3r, x3i));
    var r0, r1, r2, r3 := Results(t, x0r, x0i, x1r, x1i, x2r, x2i, x3r, x3i);
    SetEntry(n, a, j, r0, p0);
    SetEntry(n, a, j2, r2, p2);
    SetEntry(n, a, j1, r1, p1);
    SetEntry(n, a, j3, r3, p3);
  }

  /** Entry p when the rows below r of the block at pos are done. */
  function RowValue(s: seq<C>, pos: nat, h: nat, r: nat, W1: C, W2: C, p: nat): C
    requires pos + 4 * h <= |s| && p < |s|
  {
    if p < pos || pos + 4 * h <= p then s[p]
    else
      var d := p - pos;
      var i := if d < h then d else if d < 2 * h then d - h else if d < 3 * h then d - 2 * h else d - 3 * h;
      if i >= r then s[p]
      else
        var z0, z1, z2, z3 := s[pos + i], s[pos + h + i], s[pos + 2 * h + i], s[pos + 3 * h + i];
        if d < h then Out0(z0, z1, z2, z3)
        else if d < 2 * h then Out1(z0, z1, z2, z3, W1)
        else if d < 3 * h then Out2(z0, z1, z2, z3, W2)
        else Out3(z0, z1, z2, z3, W1, W2)
  }

  ghost predicate RowsDone(s0: seq<C>, s: seq<C>, pos: nat, h: nat, r: nat, W1: C, W2: C)
  {
    |s0| == |s| && pos + 4 * h <= |s| && r <= h &&
    forall p: nat :: p < |s| ==> s[p] == RowValue(s0, pos, h, r, W1, W2, p)
  }

  lemma RowStep(s0: seq<C>, s: seq<C>, pos: nat, h: nat, r: nat, W1: C, W2: C)
    requires RowsDone(s0, s, pos, h, r, W1, W2) && r < h
    ensures RowsDone(s0, Turned4(s, pos + r, pos + h + r, pos + 2 * h + r, pos + 3 * h + r, W1, W2), pos, h, r + 1,
                     W1, W2)
  {
    hide Out0, Out1, Out2, Out3;
  }

  lemma RowsStart(s: seq<C>, pos: nat, h: nat, W1: C, W2: C)
    requires pos + 4 * h <= |s|
    ensures RowsDone(s, s, pos, h, 0, W1, W2)
  {
  }

  /** The sequence with the block at pos passed through. */
  function AfterRows(s: seq<C>, pos: nat, h: nat, W1: C, W2: C): (r: seq<C>)
    requires pos + 4 * h <= |s|
    ensures |r| == |s|
  {
    s[..pos] + Quad(s[pos..pos + h], s[pos + h..pos + 2 * h], s[pos + 2 * h..pos + 3 * h],
                    s[pos + 3 * h..pos + 4 * h], W1, W2) + s[pos + 4 * h..]
  }

  lemma RowsEnd(s0: seq<C>, s: seq<C>, pos: nat, h: nat, W1: C, W2: C)
    requires RowsDone(s0, s, pos, h, h, W1, W2)
    ensures s == AfterRows(s0, pos, h, W1, W2)
  {
    hide Out0, Out1, Out2, Out3;
    Untouched(s0, s, pos, h, W1, W2);
    Touched(s0, s, pos, h, W1, W2);
    hide *;
    AfterRowsIs(s0, s, pos, h, W1, W2);
  }

  lemma AfterRowsIs(s0: seq<C>, s: seq<C>, pos: nat, h: nat, W1: C, W2: C)
    requires pos + 4 * h <= |s0| == |s| && s[..pos] == s0[..pos] && s[pos + 4 * h..] == s0[pos + 4 * h..]
    requires s[pos..pos + 4 * h] == Quad(s0[pos..pos + h], s0[pos + h..pos + 2 * h], s0[pos + 2 * h..pos + 3 * h],
                                         s0[pos + 3 * h..pos + 4 * h], W1, W2)
    ensures s == AfterRows(s0, pos, h, W1, W2)
  {
    hide Quad;
    assert s == s[..pos] + s[pos..pos + 4 * h] + s[pos + 4 * h..];
  }

  lemma TouchedRow(s0: seq<C>, s: seq<C>, pos: nat, h: nat, W1: C, W2: C, i: nat)
    requires RowsDone(s0, s, pos, h, h, W1, W2) && i < h
    ensures var z0, z1, z2, z3 := s0[pos + i], s0[pos + h + i], s0[pos + 2 * h + i], s0[pos + 3 * h + i];
      s[pos + i] == Out0(z0, z1, z2, z3) && s[pos + h + i] == Out1(z0, z1, z2, z3, W1) &&
      s[pos + 2 * h + i] == Out2(z0, z1, z2, z3, W2) && s[pos + 3 * h + i] == Out3(z0, z1, z2, z3, W1, W2)
  {
    hide Out0, Out1, Out2, Out3;
  }

  /** Quarter c of the block at pos. */
  function Quarter(s: seq<C>, pos: nat, h: nat, c: nat): (r: seq<C>)
    requires pos + 4 * h <= |s| && c < 4
    ensures |r| == h && forall i :: 0 <= i < h ==> r[i] == s[pos + c * h + i]
  {
    assert 0 <= c * h <= 3 * h && (c + 1) * h == c * h + h;
    s[pos + c * h..pos + c * h + h]
  }

  lemma QuartersTouched(s0: seq<C>, s: seq<C>, pos: nat, h: nat, W1: C, W2: C)
    requires RowsDone(s0, s, pos, h, h, W1, W2)
    ensures var q0, q1 := Quarter(s0, pos, h, 0), Quarter(s0, pos, h, 1);
      var q2, q3 := Quarter(s0, pos, h, 2), Quarter(s0, pos, h, 3);
      Quarter(s, pos, h, 0) == Outs0(q0, q1, q2, q3) && Quarter(s, pos, h, 1) == Outs1(q0, q1, q2, q3, W1) &&
      Quarter(s, pos, h, 2) == Outs2(q0, q1, q2, q3, W2) && Quarter(s, pos, h, 3) == Outs3(q0, q1, q2, q3, W1, W2)
  {
    var q0, q1, q2, q3 := Quarter(s0, pos, h, 0), Quarter(s0, pos, h, 1), Quarter(s0, pos, h, 2),
      Quarter(s0, pos, h, 3);
    var r0, r1, r2, r3 := Quarter(s, pos, h, 0), Quarter(s, pos, h, 1), Quarter(s, pos, h, 2), Quarter(s, pos, h, 3);
    hide Out0, Out1, Out2, Out3, RowValue, RowsDone, Quarter;
    forall i: nat | i < h
      ensures r0[i] == Outs0(q0, q1, q2, q3)[i] && r1[i] == Outs1(q0, q1, q2, q3, W1)[i]
      ensures r2[i] == Outs2(q0, q1, q2, q3, W2)[i] && r3[i] == Outs3(q0, q1, q2, q3, W1, W2)[i]
    {
      TouchedRow(s0, s, pos, h, W1, W2, i);
    }
  }

  lemma Joined(s: seq<C>, pos: nat, h: nat)
    requires pos + 4 * h <= |s|
    ensures s[pos..pos + 4 * h] ==
      Quarter(s, pos, h, 0) + Quarter(s, pos, h, 1) + Quarter(s, pos, h, 2) + Quarter(s, pos, h, 3)
    ensures s[pos..pos + h] == Quarter(s, pos, h, 0) && s[pos + h..pos + 2 * h] == Quarter(s, pos, h, 1)
    ensures s[pos + 2 * h..pos + 3 * h] == Quarter(s, pos, h, 2) && s[pos + 3 * h..pos + 4 * h] == Quarter(s, pos, h, 3)
  {
  }

  lemma Touched(s0: seq<C>, s: seq<C>, pos: nat, h: nat, W1: C, W2: C)
    requires RowsDone(s0, s, pos, h, h, W1, W2)
    ensures s[pos..pos + 4 * h] == Quad(s0[pos..pos + h], s0[pos + h..pos + 2 * h], s0[pos + 2 * h..pos + 3 * h],
                                        s0[pos + 3 * h..pos + 4 * h], W1, W2)
  {
    assert pos + 4 * h <= |s| == |s0|;
    hide RowsDone, Quarter, Outs0, Outs1, Outs2, Outs3, RowValue;
    QuartersTouched(s0, s, pos, h, W1, W2);
    Joined(s0, pos, h);
    Joined(s, pos, h);
  }

  lemma Untouched(s0: seq<C>, s: seq<C>, pos: nat, h: nat, W1: C, W2: C)
    requires RowsDone(s0, s, pos, h, h, W1, W2)
    ensures s[..pos] == s0[..pos] && s[pos + 4 * h..] == s0[pos + 4 * h..]
  {
  }

  /** One row: the entry at j and those l, 2l and 3l above it. */
  method Row(t: Twiddle, n: nat, a: array<real>, j: nat, l: nat, ghost s0: seq<C>, ghost pos: nat, ghost h: nat,
             ghost r: nat)
    requires n <= a.Length && Fits(t) && r < h && j == 2 * (pos + r) && l == 2 * h && pos + 4 * h <= n / 2
    requires RowsDone(s0, Entries(a, n), pos, h, r, First(t), Second(t))
    modifies a
    ensures RowsDone(s0, Entries(a, n), pos, h, r + 1, First(t), Second(t))
    ensures forall i :: n <= i < a.Length ==> a[i] == old(a[i])
  {
    hide *;
    var j1 := j + l;
    var j2 := j1 + l;
    var j3 := j2 + l;
    RowStep(s0, Entries(a, n), pos, h, r, First(t), Second(t));
    Butterfly(t, n, a, j, j1, j2, j3, pos + r, pos + h + r, pos + 2 * h + r, pos + 3 * h + r);
  }

  /** All rows of the block that starts at k, with quarters of length l. */
  method Rows(t: Twiddle, n: nat, a: array<real>, k: nat, l: nat, ghost pos: nat, ghost h: nat)
    requires n <= a.Length && Fits(t) && k == 2 * pos && l == 2 * h && pos + 4 * h <= n / 2
    modifies a
    ensures Entries(a, n) == AfterRows(old(Entries(a, n)), pos, h, First(t), Second(t))
    ensures forall i :: n <= i < a.Length ==> a[i] == old(a[i])
  {
    hide *;
    ghost var s0 := Entries(a, n);
    ghost var r := 0;
    RowsStart(s0, pos, h, First(t), Second(t));
    var j := k;
    while j < k + l
      invariant j == 2 * (pos + r) && r <= h
      invariant RowsDone(s0, Entries(a, n), pos, h, r, First(t), Second(t))
      invariant forall i :: n <= i < a.Length ==> a[i] == old(a[i])
    {
      Row(t, n, a, j, l, s0, pos, h, r);
      j := j + 2;
      r := r + 1;
    }
    RowsEnd(s0, Entries(a, n), pos, h, First(t), Second(t));
  }
}
