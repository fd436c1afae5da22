/** diff: the distance of two numbers, with the sign of a - b beside it. */
module Differences {
  import opened Words
  import opened Bigints

  /** a - t - borrow in 64 bits: the low word, and whether the word above must be charged. */
  method SubWord(a: Word, t: Word, borrow: nat) returns (w: Word, borrow': nat)
    requires borrow <= 1
    ensures borrow' <= 1 && w - 0x1_0000_0000 * borrow' == a - t - borrow
  {
    var y := (a - t - borrow) % 0x1_0000_0000_0000_0000;
    borrow' := y / 0x1_0000_0000 % 2;
    w := y % 0x1_0000_0000;
  }

  /** c holds the low i words of s - t, with the borrow still to take at weight i. */
  ghost predicate DiffInv(c: seq<Word>, s: seq<Word>, t: seq<Word>, i: nat, borrow: nat)
  {
    |c| == i <= |s| == |t| &&
    Value(c) == Value(s[..i]) - Value(t[..i]) + borrow * Weight(i)
  }

  lemma DiffStart(s: seq<Word>, t: seq<Word>)
    requires |s| == |t|
    ensures DiffInv([], s, t, 0, 0)
  {
    assert s[..0] == [] == t[..0];
  }

  lemma DiffStep(c: seq<Word>, s: seq<Word>, t: seq<Word>, i: nat, borrow: nat, w: Word, borrow': nat)
    requires i < |s| && DiffInv(c, s, t, i, borrow)
    requires w - 0x1_0000_0000 * borrow' == s[i] - t[i] - borrow
    ensures DiffInv(c + [w], s, t, i + 1, borrow')
  {
    hide Weight, Value;
    ValueSnoc(c, w);
    ValueStep(s, i);
    ValueStep(t, i);
    WeightStep(i);
    BorrowAlgebra(Weight(i), w, s[i], t[i], borrow, borrow');
  }

  lemma BorrowAlgebra(p: int, w: int, s: int, t: int, borrow: int, borrow': int)
    requires w - 0x1_0000_0000 * borrow' == s - t - borrow
    ensures w * p + borrow * p == s * p - t * p + borrow' * (0x1_0000_0000 * p)
  {
    assert w + borrow == s - t + 0x1_0000_0000 * borrow';
    Distribute(p, w, borrow);
    Distribute(p, s - t, 0x1_0000_0000 * borrow');
    Distribute(p, s, -t);
    MulAssoc(borrow', 0x1_0000_0000, p);
  }

  /** A charge that would lift c to p or more cannot have been made. */
  lemma NothingLeft(c: int, v: int, charge: int, p: int)
    requires c == v + charge * p && c < p && v >= 0 && charge >= 0 && p > 0
    ensures charge == 0 && c == v
  {
    if charge >= 1 {
      MulMono(p, 1, charge);
    }
  }

  /** No borrow is left when s is at least t. */
  lemma DiffEnd(c: seq<Word>, s: seq<Word>, t: seq<Word>, borrow: nat)
    requires DiffInv(c, s, t, |s|, borrow) && borrow <= 1 && Value(s) >= Value(t)
    ensures borrow == 0 && Value(c) == Value(s) - Value(t)
  {
    hide Weight, Value;
    assert s[..|s|] == s && t[..|t|] == t;
    ValueBound(c);
    NothingLeft(Value(c), Value(s) - Value(t), borrow, Weight(|s|));
  }

  /** The larger of two normal forms has at least as many words. */
  lemma LargerIsLonger(a: Bigint, b: Bigint)
    requires a.Ok() && b.Ok() && a.Value() > b.Value()
    ensures a.wds >= b.wds
  {
    if a.wds < b.wds {
      LongerIsLarger(b.x[..b.wds], a.x[..a.wds]);
    }
  }

  /** Writes the words of a - b, one for each word of a. */
  method SubtractWords(c: Bigint, a: Bigint, b: Bigint)
    requires c.Valid() && a.Ok() && b.Ok() && c.x != a.x && c.x != b.x
    requires 0 < b.wds <= a.wds <= c.maxwds && a.Value() >= b.Value()
    modifies c.x
    ensures Words.Value(c.x[..a.wds]) == a.Value() - b.Value()
  {
    hide Words.Value, Weight, Pow, DiffInv;
    var wa, wb := a.wds, b.wds;
    ghost var s, t := a.x[..wa], b.x[..wb] + seq(wa - wb, _ => 0);
    ValueTopZero(t, wb);
    assert t[..wb] == b.x[..wb];
    DiffStart(s, t);
    var i, borrow := 0, 0;
    assert c.x[..i] == [];
    while true
      invariant 0 <= i < wb && borrow <= 1
      invariant DiffInv(c.x[..i], s, t, i, borrow)
      decreases wb - i
    {
      ghost var low, borrow0 := c.x[..i], borrow;
      var w;
      w, borrow := SubWord(a.x[i], b.x[i], borrow);
      c.x[i] := w;
      assert c.x[..i + 1] == low + [w];
      DiffStep(low, s, t, i, borrow0, w, borrow);
      i := i + 1;
      if i >= wb {
        break;
      }
    }
    while i < wa
      invariant wb <= i <= wa && borrow <= 1
      invariant DiffInv(c.x[..i], s, t, i, borrow)
    {
      ghost var low, borrow0 := c.x[..i], borrow;
      var w;
      w, borrow := SubWord(a.x[i], 0, borrow);
      c.x[i] := w;
      assert c.x[..i + 1] == low + [w];
      DiffStep(low, s, t, i, borrow0, w, borrow);
      i := i + 1;
    }
    DiffEnd(c.x[..wa], s, t, borrow);
  }

  /** |a - b| in a new number whose sign is 1 exactly when a < b. */
  method Diff(a0: Bigint, b0: Bigint) returns (c: Bigint)
    requires a0.Ok() && b0.Ok() && a0.wds > 0 && b0.wds > 0
    ensures fresh(c) && fresh(c.x) && c.Ok() && c.wds > 0
    ensures a0.Value() >= b0.Value() ==> c.sign == 0 && c.Value() == a0.Value() - b0.Value()
    ensures a0.Value() < b0.Value() ==> c.sign == 1 && c.Value() == b0.Value() - a0.Value()
  {
    hide Words.Value, Weight, Pow;
    var a, b := a0, b0;
    var i := Cmp(a, b);
    if i == 0 {
      c := new Bigint.Balloc(0);
      c.wds := 1;
      c.x[0] := 0;
      ValueOne(c.x[..1]);
      return;
    }
    if a.Value() == b.Value() == 0 {
      ZeroIsShort(a);
      ZeroIsShort(b);
    }
    if i < 0 {
      a, b := b, a;
      i := 1;
    } else {
      i := 0;
    }
    LargerIsLonger(a, b);
    c := new Bigint.Balloc(a.k);
    c.sign := i;
    SubtractWords(c, a, b);
    var wa := TrimTop(c, a.wds);
    c.wds := wa;
    ValueZeros(c.x[..0]);
  }
}
