/** mult: the schoolbook product of two numbers, one row of words at a time. */
module Products {
  import opened Words
  import opened Bigints

  /** One step of a row: s*y plus the word already there plus the carry fits two words. */
  method RowWord(s: Word, y: Word, old_: Word, c: Word) returns (w: Word, c': Word)
    ensures w + 0x1_0000_0000 * c' == s * y + old_ + c
  {
    RowBound(s, y);
    var z := s * y + old_ + c;
    w, c' := z % 0x1_0000_0000, z / 0x1_0000_0000;
  }

  lemma RowBound(s: Word, y: Word)
    ensures 0 <= s * y <= 0xFFFF_FFFF * 0xFFFF_FFFF
  {
    MulMono(s, y, 0xFFFF_FFFF);
  }

  /** After i words of a row: low holds u + s*y there, with carry c still to go in at weight i. */
  ghost predicate RowInv(low: seq<Word>, u: seq<Word>, s: seq<Word>, i: nat, y: nat, c: nat)
  {
    |low| == i <= |s| && i <= |u| &&
    Value(low) + c * Weight(i) == Value(u[..i]) + Value(s[..i]) * y
  }

  lemma RowStart(u: seq<Word>, s: seq<Word>, y: nat)
    ensures RowInv([], u, s, 0, y, 0)
  {
    assert u[..0] == [] == s[..0];
  }

  lemma RowStep(low: seq<Word>, u: seq<Word>, s: seq<Word>, i: nat, y: nat, c: nat, w: Word, c': nat)
    requires i < |s| && i < |u| && RowInv(low, u, s, i, y, c)
    requires w + 0x1_0000_0000 * c' == s[i] * y + u[i] + c
    ensures RowInv(low + [w], u, s, i + 1, y, c')
  {
    hide Weight, Value;
    ValueSnoc(low, w);
    ValueStep(s, i);
    ValueStep(u, i);
    WeightStep(i);
    var p := Weight(i);
    calc {
      (Value(low) + w * p) + c' * (0x1_0000_0000 * p);
      Value(low) + (w + 0x1_0000_0000 * c') * p;
      Value(low) + (s[i] * y + u[i] + c) * p;
      { Distribute(p, s[i] * y + u[i], c); Distribute(p, s[i] * y, u[i]); }
      (Value(low) + c * p) + (s[i] * y) * p + u[i] * p;
      { MulAssoc(s[i], y, p); MulAssoc(s[i], p, y); assert y * p == p * y; }
      (Value(u[..i]) + u[i] * p) + (Value(s[..i]) * y + (s[i] * p) * y);
      { Distribute(y, Value(s[..i]), s[i] * p); }
      Value(u[..i + 1]) + Value(s[..i + 1]) * y;
    }
  }

  lemma RowEnd(low: seq<Word>, u: seq<Word>, s: seq<Word>, y: nat, c: Word)
    requires |u| == |s| && RowInv(low, u, s, |s|, y, c)
    ensures Value(low + [c]) == Value(u) + Value(s) * y
  {
    hide Weight, Value;
    assert s[..|s|] == s && u[..|u|] == u;
    ValueSnoc(low, c);
  }

  /** Adds a*y to c from word i on; the word above the row takes the last carry. */
  method AddRow(c: Bigint, i: nat, a: Bigint, y: Word)
    requires c.Valid() && a.Ok() && a.x != c.x && 0 < a.wds && i + a.wds < c.maxwds
    modifies c.x
    ensures forall j :: 0 <= j < i || i + a.wds < j < c.maxwds ==> c.x[j] == old(c.x[j])
    ensures Value(c.x[i..i + a.wds + 1]) == Value(old(c.x[i..i + a.wds])) + a.Value() * y
  {
    hide RowInv, Weight, Words.Value, Pow;
    ghost var u, s := c.x[i..i + a.wds], a.x[..a.wds];
    var j, carry: Word := 0, 0;
    RowStart(u, s, y);
    assert c.x[i..i + j] == [];
    while true
      invariant 0 <= j < a.wds
      invariant forall q :: 0 <= q < i || i + j <= q < c.maxwds ==> c.x[q] == old(c.x[q])
      invariant RowInv(c.x[i..i + j], u, s, j, y, carry)
      decreases a.wds - j
    {
      ghost var low, carry0 := c.x[i..i + j], carry;
      assert c.x[i + j] == u[j];
      assert a.x[j] == s[j];
      var w: Word;
      w, carry := RowWord(a.x[j], y, c.x[i + j], carry);
      c.x[i + j] := w;
      assert c.x[i..i + j + 1] == low + [w];
      RowStep(low, u, s, j, y, carry0, w, carry);
      j := j + 1;
      if j >= a.wds {
        break;
      }
    }
    ghost var low := c.x[i..i + j];
    RowEnd(low, u, s, y, carry);
    c.x[i + j] := carry;
    assert c.x[i..i + a.wds + 1] == low + [carry];
    assert u == old(c.x[i..i + a.wds]);
  }

  /** The rows already added spell A * B' for the words B' of b used so far. */
  lemma RowsStep(lo: seq<Word>, u: seq<Word>, v: seq<Word>, t: seq<Word>, i: nat, a: nat)
    requires i < |t| && |lo| == i
    requires Value(lo + u) == a * Value(t[..i])
    requires Value(v) == Value(u) + a * t[i]
    ensures Value(lo + v) == a * Value(t[..i + 1])
  {
    hide Weight, Value;
    ValueConcat(lo, u);
    ValueConcat(lo, v);
    ValueStep(t, i);
    assert Weight(|lo|) == Weight(i);
    RowsAlgebra(Value(lo), Weight(i), Value(u), Value(v), a, t[i], Value(t[..i]), Value(t[..i + 1]));
  }

  lemma RowsAlgebra(lo: int, p: int, u: int, v: int, a: int, w: int, b: int, b': int)
    requires lo + p * u == a * b
    requires v == u + a * w && b' == b + w * p
    ensures lo + p * v == a * b'
  {
    Distribute(p, u, a * w);
    MulSwap(1, p, a, w);
    Distribute(a, b, w * p);
  }

  lemma RowSkipped(lo: seq<Word>, t: seq<Word>, i: nat, a: nat)
    requires i < |t| && t[i] == 0
    requires Value(lo) == a * Value(t[..i])
    ensures Value(lo + [0]) == a * Value(t[..i + 1])
  {
    hide Weight, Value;
    ValueSnoc(lo, 0);
    ValueStep(t, i);
  }

  /** Adds one row for each word of b. */
  method AddRows(c: Bigint, a: Bigint, b: Bigint)
    requires c.Valid() && a.Ok() && b.Ok() && a.x != c.x && b.x != c.x
    requires 0 < a.wds && a.wds + b.wds <= c.maxwds
    requires forall j :: 0 <= j < a.wds + b.wds ==> c.x[j] == 0
    modifies c.x
    ensures Words.Value(c.x[..b.wds + a.wds]) == a.Value() * b.Value()
  {
    hide Words.Value, Weight, Pow;
    var wa, wb := a.wds, b.wds;
    ghost var t, av := b.x[..wb], a.Value();
    RowsStart(c.x[..wa], t, av);
    for i := 0 to wb
      invariant Words.Value(c.x[..i + wa]) == av * Words.Value(t[..i])
      invariant forall j :: i + wa <= j < wa + wb ==> c.x[j] == 0
    {
      ghost var lo, u := c.x[..i], c.x[i..i + wa];
      assert c.x[..i + wa] == lo + u;
      if b.x[i] != 0 {
        AddRow(c, i, a, b.x[i]);
        assert c.x[..i + wa + 1] == lo + c.x[i..i + wa + 1];
        RowsStep(lo, u, c.x[i..i + wa + 1], t, i, av);
      } else {
        assert c.x[..i + wa + 1] == (lo + u) + [0];
        RowSkipped(lo + u, t, i, av);
      }
    }
    assert t[..wb] == t;
  }

  method Mult(a0: Bigint, b0: Bigint) returns (c: Bigint)
    requires a0.Ok() && b0.Ok() && a0.wds > 0 && b0.wds > 0
    ensures fresh(c) && fresh(c.x) && c.Ok()
    ensures c.Value() == a0.Value() * b0.Value()
    ensures c.sign == 0
  {
    hide Words.Value, Weight, Pow;
    var a, b := a0, b0;
    if a.wds < b.wds {
      a, b := b, a;
    }
    MultSwapped(a0.Value(), b0.Value());
    var k, wa, wb := a.k, a.wds, b.wds;
    var wc := wa + wb;
    RoomDoubles(a.k);
    if wc > a.maxwds {
      k := k + 1;
    }
    c := new Bigint.Balloc(k);
    for i := 0 to wc
      invariant c.wds == 0 && c.sign == 0
      invariant forall j :: 0 <= j < i ==> c.x[j] == 0
    {
      c.x[i] := 0;
    }
    AddRows(c, a, b);
    wc := TrimTop(c, wc);
    c.wds := wc;
  }

  lemma MultSwapped(a: int, b: int)
    ensures a * b == b * a
  {
  }

  lemma RowsStart(lo: seq<Word>, t: seq<Word>, a: nat)
    requires forall j :: 0 <= j < |lo| ==> lo[j] == 0
    ensures Value(lo) == a * Value(t[..0])
  {
    ValueZeros(lo);
    assert t[..0] == [];
  }
}
