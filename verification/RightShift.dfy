/** rshift in place, and what a right shift loses: any_on, trailz, hi0bits, lo0bits. */
module RightShifts {
  import opened Words
  import opened Bigints
  import opened Shifts

  /** c holds the words of t shifted right by r bits up to place i, where y waits. */
  ghost predicate RShiftInv(c: seq<Word>, t: seq<Word>, i: nat, p: nat, y: nat)
  {
    |c| == i < |t| && p > 0 &&
    Value(c) * p + t[0] % p + (y * p) * Weight(i) == Value(t[..i + 1])
  }

  lemma RShiftStart(t: seq<Word>, p: nat)
    requires |t| > 0 && p > 0
    ensures RShiftInv([], t, 0, p, t[0] / p)
  {
    ValueOne(t[..1]);
    assert t[0] == p * (t[0] / p) + t[0] % p;
    assert (t[0] / p) * p * 1 == p * (t[0] / p);
  }

  lemma RShiftStep(c: seq<Word>, t: seq<Word>, i: nat, p: nat, q: nat, y: nat, w: Word)
    requires i + 1 < |t| && RShiftInv(c, t, i, p, y)
    requires q > 0 && p * q == 0x1_0000_0000
    requires w == y + (t[i + 1] % p) * q
    ensures RShiftInv(c + [w], t, i + 1, p, t[i + 1] / p)
  {
    hide Weight, Value;
    var x, y' := t[i + 1], t[i + 1] / p;
    ValueSnoc(c, w);
    ValueStep(t, i + 1);
    WeightStep(i);
    assert x == p * y' + x % p;
    RShiftAlgebra(Value(c), Weight(i), p, q, y, w, x % p, y', x, Value(t[..i + 1]) - t[0] % p);
  }

  lemma RShiftAlgebra(c: int, v: int, p: int, q: int, y: int, w: int, l: int, y': int, x: int, s: int)
    requires p * q == 0x1_0000_0000 && w == y + l * q && x == p * y' + l
    requires c * p + (y * p) * v == s
    ensures (c + w * v) * p + (y' * p) * (0x1_0000_0000 * v) == s + x * (0x1_0000_0000 * v)
  {
    var b := 0x1_0000_0000 * v;
    assert (w * v) * p == (y * p) * v + l * b by {
      Distribute(v * p, y, l * q);
      MulAssoc(w, v, p);
      MulAssoc(y, v, p);
      MulAssoc(y, p, v);
      MulSwap(l, q, v, p);
      assert q * p == 0x1_0000_0000;
      MulSwap(l, v, q, p);
      MulAssoc(l, v, 0x1_0000_0000);
    }
    Distribute(p, c, w * v);
    assert x * b == (y' * p) * b + l * b by {
      Distribute(b, p * y', l);
    }
  }

  /** With y in place the words spell the quotient by p. */
  lemma RShiftEnd(c: seq<Word>, t: seq<Word>, p: nat, y: Word)
    requires |t| > 0 && RShiftInv(c, t, |t| - 1, p, y)
    ensures Value(c + [y]) == Value(t) / p
    ensures y == 0 ==> Value(c) == Value(t) / p
  {
    hide Weight, Value;
    assert t[..|t|] == t;
    ValueSnoc(c, y);
    var v := Value(c + [y]);
    Distribute(p, Value(c), y * Weight(|c|));
    MulSwap(y, Weight(|c|), 1, p);
    MulAssoc(y, p, Weight(|c|));
    QuotientIs(Value(t), p, v, t[0] % p);
  }

  /** Words of a number from place n on spell its quotient by 2^(32 n). */
  lemma DropWords(s: seq<Word>, n: nat)
    requires n <= |s|
    ensures Value(s[n..]) == Value(s) / Weight(n) && Value(s[..n]) == Value(s) % Weight(n)
  {
    hide Weight, Value;
    assert s == s[..n] + s[n..];
    ValueConcat(s[..n], s[n..]);
    ValueBound(s[..n]);
    QuotientIs(Value(s), Weight(n), Value(s[n..]), Value(s[..n]));
  }

  lemma RShiftValue(s: seq<Word>, k: nat)
    requires k / 32 <= |s|
    ensures Pow(2, k) > 0 && Value(s[k / 32..]) / Pow(2, k % 32) == Value(s) / Pow(2, k)
  {
    Pow2Split(k);
    DropWords(s, k / 32);
    DivDiv(Value(s), Weight(k / 32), Pow(2, k % 32));
  }

  lemma RShiftAll(s: seq<Word>, k: nat)
    requires k / 32 >= |s|
    ensures Value(s) < Pow(2, k)
  {
    Pow2Split(k);
    ValueBound(s);
    PowMono(BASE, |s|, k / 32);
    MulMono(Weight(k / 32), 1, Pow(2, k % 32));
  }

  /** One word of a right shift: y comes from below, the low bits of x move to its top. */
  method RShiftWord(y: Word, x: Word, r: nat) returns (w: Word, y': Word)
    requires 0 < r < 32 && y < Pow(2, 32 - r)
    ensures w == y + (x % Pow(2, r)) * Pow(2, 32 - r)
    ensures y' == x / Pow(2, r) < Pow(2, 32 - r)
    ensures x != 0 && y' == 0 ==> w != 0
  {
    Pow2Halves(32 - r);
    ShiftSplit(x, 32 - r);
    // y fills the bits below the shifted word, so the bitwise or is a sum
    w := y + (x * Pow(2, 32 - r)) % 0x1_0000_0000;
    y' := x / Pow(2, r);
    if y' == 0 && x != 0 {
      MulMono(Pow(2, 32 - r), 1, x % Pow(2, r));
    }
  }

  /** The words of b from place n on, shifted right by r bits, down to place 0. */
  method ShiftWordsDown(b: Bigint, n: nat, r: nat) returns (x1: nat)
    requires b.Valid() && n < b.wds && 0 < r < 32
    requires b.wds <= 1 || b.x[b.wds - 1] != 0
    modifies b.x
    ensures x1 <= b.wds - n && (x1 == 0 || b.x[x1 - 1] != 0)
    ensures Words.Value(b.x[..x1]) == Words.Value(old(b.x[n..b.wds])) / Pow(2, r)
    ensures x1 < b.wds - n ==> b.x[x1] == 0
  {
    hide RShiftInv, Words.Value, Weight, Pow;
    Pow2Halves(r);
    ghost var t, p, q := b.x[n..b.wds], Pow(2, r), Pow(2, 32 - r);
    var wds := b.wds;
    x1 := 0;
    ShiftSplit(b.x[n], 32 - r);
    var y: Word := b.x[n] / Pow(2, r);
    RShiftStart(t, p);
    assert b.x[..x1] == [];
    while n + x1 + 1 < wds
      invariant n + x1 < wds && y < q
      invariant y == t[x1] / p
      invariant forall j :: n + x1 < j < wds ==> b.x[j] == t[j - n]
      invariant n + x1 + 1 == wds ==> y != 0 || x1 == 0 || b.x[x1 - 1] != 0
      invariant RShiftInv(b.x[..x1], t, x1, p, y)
    {
      ghost var low, y0 := b.x[..x1], y;
      var w: Word;
      w, y := RShiftWord(y, b.x[n + x1 + 1], r);
      b.x[x1] := w;
      assert b.x[..x1 + 1] == low + [w];
      RShiftStep(low, t, x1, p, q, y0, w);
      x1 := x1 + 1;
    }
    ghost var low := b.x[..x1];
    RShiftEnd(low, t, p, y);
    b.x[x1] := y;
    assert b.x[..x1] == low && b.x[..x1 + 1] == low + [y];
    if y != 0 {
      x1 := x1 + 1;
    }
  }

  method MoveWordsDown(b: Bigint, n: nat)
    requires b.Valid() && n <= b.wds
    modifies b.x
    ensures b.x[..b.wds - n] == old(b.x[n..b.wds])
  {
    var x1 := 0;
    while n + x1 < b.wds
      invariant n + x1 <= b.wds
      invariant forall j :: 0 <= j < x1 ==> b.x[j] == old(b.x[n + j])
      invariant forall j :: n + x1 <= j < b.wds ==> b.x[j] == old(b.x[j])
    {
      b.x[x1] := b.x[n + x1];
      x1 := x1 + 1;
    }
  }

  /** b shifted right by k bits, in place. */
  method RShift(b: Bigint, k: nat)
    requires b.Ok()
    modifies b`wds, b.x
    ensures b.Ok() && b.Value() == old(b.Value()) / Pow(2, k)
    ensures b.wds <= old(b.wds)
    ensures b.wds <= 1 || b.x[b.wds - 1] != 0
    ensures b.wds < old(b.wds) && 0 < k < 32 ==> b.x[b.wds] == 0
  {
    hide Words.Value, Weight, Pow;
    ghost var s := b.x[..b.wds];
    var n, x1 := k / 32, 0;
    if n < b.wds {
      RShiftValue(s, k);
      assert s[n..] == b.x[n..b.wds];
      if k % 32 != 0 {
        x1 := ShiftWordsDown(b, n, k % 32);
      } else {
        MoveWordsDown(b, n);
        x1 := b.wds - n;
        assert b.x[x1 - 1] == b.x[..x1][x1 - 1];
        DivByOne(Words.Value(s[n..]));
      }
    } else {
      RShiftAll(s, k);
      DivSmall(b.Value(), Pow(2, k));
      ValueZeros(b.x[..0]);
    }
    b.wds := x1;
    if b.wds == 0 {
      b.x[0] := 0;
    }
  }

  lemma DivByOne(v: nat)
    ensures v / Pow(2, 0) == v
  {
  }

  lemma DivSmall(v: nat, p: nat)
    requires v < p
    ensures v / p == 0
  {
    QuotientIs(v, p, 0, v);
  }
}
