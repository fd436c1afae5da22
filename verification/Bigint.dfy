/** The multiple-precision integers of gdtoa: little-endian 32-bit words in a block of 2^k of them. */
module Bigints {
  import opened Words

  class Bigint {
    const k: nat
    const maxwds: nat
    const x: array<Word>
    var sign: nat
    var wds: nat

    ghost predicate Valid()
      reads this
    {
      maxwds == Pow(2, k) && x.Length == maxwds && wds <= maxwds
    }

    /** Normal form: no leading zero word, except that zero may keep one word.
        A number of no words still has a zero word below it, which the do-while loops read. */
    ghost predicate Normal()
      requires Valid()
      reads this, x
    {
      if wds == 0 then x[0] == 0 else wds == 1 || x[wds - 1] != 0
    }

    ghost predicate Ok()
      reads this, x
    {
      Valid() && Normal()
    }

    ghost function Value(): nat
      requires Valid()
      reads this, x
    {
      Words.Value(x[..wds])
    }

    /** A block from the allocator: its words hold whatever was there before. */
    constructor Balloc(k: nat)
      ensures Valid() && fresh(x)
      ensures this.k == k && wds == 0 && sign == 0
    {
      this.k := k;
      maxwds := Pow(2, k);
      x := new Word[Pow(2, k)];
      wds, sign := 0, 0;
    }
  }

  /** Copies the sign and the words of src. */
  method Bcopy(dst: Bigint, src: Bigint)
    requires dst.Valid() && src.Valid() && dst.x != src.x && dst != src
    requires src.wds <= dst.maxwds
    modifies dst, dst.x
    ensures dst.Valid() && dst.wds == src.wds && dst.sign == src.sign
    ensures dst.x[..dst.wds] == src.x[..src.wds]
    ensures dst.x[src.wds..] == old(dst.x[src.wds..])
  {
    dst.sign, dst.wds := src.sign, src.wds;
    for i := 0 to src.wds
      invariant dst.Valid() && dst.wds == src.wds && dst.sign == src.sign
      invariant dst.x[..i] == src.x[..i]
      invariant dst.x[src.wds..] == old(dst.x[src.wds..])
    {
      dst.x[i] := src.x[i];
    }
  }

  /** One more bit of k doubles the room. */
  lemma RoomDoubles(k: nat)
    ensures Pow(2, k + 1) == 2 * Pow(2, k)
  {
  }

  lemma CarryStep(v: int, p: int, w: int, c': int, s: int, m: int, c: int, sv: int)
    requires w + 0x1_0000_0000 * c' == s * m + c
    requires v + c * p == sv
    ensures (v + w * p) + c' * (0x1_0000_0000 * p) == sv + (s * p) * m
  {
    calc {
      (v + w * p) + c' * (0x1_0000_0000 * p);
      v + (w + 0x1_0000_0000 * c') * p;
      v + (s * m + c) * p;
      v + (s * m) * p + c * p;
      { MulAssoc(s, m, p); MulAssoc(s, p, m); }
      sv + (s * p) * m;
    }
  }

  /** The number of words left when the zero words on top of the first n are dropped. */
  method TrimTop(c: Bigint, n: nat) returns (wds: nat)
    requires c.Valid() && n <= c.maxwds
    ensures wds <= n && (wds == 0 || c.x[wds - 1] != 0)
    ensures wds == 0 && n > 0 ==> c.x[0] == 0
    ensures Value(c.x[..wds]) == Value(c.x[..n])
  {
    wds := n;
    while wds > 0 && c.x[wds - 1] == 0
      invariant wds <= n
      invariant forall j :: wds <= j < n ==> c.x[j] == 0
    {
      wds := wds - 1;
    }
    ValueTopZero(c.x[..n], wds);
    assert c.x[..n][..wds] == c.x[..wds];
  }

  /** Writes one more word on top, moving to a block of twice the size when this one is full. */
  method PushWord(b: Bigint, w: Word) returns (r: Bigint)
    requires b.Valid() && w != 0
    modifies b, b.x
    ensures r == b || (fresh(r) && fresh(r.x))
    ensures r.Ok() && r.wds == old(b.wds) + 1
    ensures r.x[..r.wds] == old(b.x[..b.wds]) + [w]
    ensures r.k >= b.k && r.sign == old(b.sign)
  {
    r := b;
    if b.wds >= b.maxwds {
      RoomDoubles(b.k);
      var b1 := new Bigint.Balloc(b.k + 1);
      Bcopy(b1, b);
      r := b1;
    }
    r.x[r.wds] := w;
    r.wds := r.wds + 1;
  }

  /** The words of s[..i] times m plus a are in low, with carry c still to go in at weight i. */
  ghost predicate MultAddInv(low: seq<Word>, s: seq<Word>, i: nat, m: nat, a: nat, c: nat)
  {
    |low| == i <= |s| && Value(low) + c * Weight(i) == Value(s[..i]) * m + a
  }

  lemma MultAddStart(s: seq<Word>, m: nat, a: nat)
    ensures MultAddInv([], s, 0, m, a, a)
  {
    assert s[..0] == [];
  }

  lemma MultAddStep(low: seq<Word>, s: seq<Word>, i: nat, m: nat, a: nat, c: nat, c': nat, w: Word)
    requires i < |s| && MultAddInv(low, s, i, m, a, c)
    requires w + 0x1_0000_0000 * c' == s[i] * m + c
    ensures MultAddInv(low + [w], s, i + 1, m, a, c')
  {
    ValueSnoc(low, w);
    ValueStep(s, i);
    CarryStep(Value(low), Weight(i), w, c', s[i], m, c, Value(s[..i]) * m + a);
    Distribute(m, Value(s[..i]), s[i] * Weight(i));
  }

  lemma MultAddEnd(low: seq<Word>, s: seq<Word>, m: nat, a: nat, c: nat)
    requires MultAddInv(low, s, |s|, m, a, c)
    ensures c == 0 ==> Value(low) == Value(s) * m + a
    ensures c <= 0xFFFF_FFFF ==> Value(low + [c]) == Value(s) * m + a
  {
    assert s[..|s|] == s;
    if c <= 0xFFFF_FFFF {
      ValueSnoc(low, c);
    }
  }

  /** One step of the product loop: the low word of s*m + c and the next carry. */
  method MulWord(s: Word, m: nat, c: nat) returns (w: Word, c': nat)
    requires m < 0x8000_0000 && c < 0x8000_0000
    ensures w + 0x1_0000_0000 * c' == s * m + c
    ensures c' < 0x8000_0000
    ensures s != 0 && m != 0 && c' == 0 ==> w != 0
  {
    MulMono(s, m, 0x7FFF_FFFF);
    var y := s * m + c;
    w, c' := y % 0x1_0000_0000, y / 0x1_0000_0000;
  }

  /** Multiply by m and add a. */
  method MultAdd(b: Bigint, m: nat, a: nat) returns (r: Bigint)
    requires b.Ok() && 0 < m < 0x8000_0000 && a < 0x8000_0000
    requires b.wds == 0 ==> a == 0
    modifies b, b.x
    ensures r == b || (fresh(r) && fresh(r.x))
    ensures r.Ok() && r.Value() == old(b.Value()) * m + a
    ensures r.k >= b.k && r.sign == old(b.sign)
    ensures old(b.wds) > 0 ==> r.wds > 0
  {
    hide MultAddInv, Words.Value, Weight, Pow;
    r := b;
    var wds := b.wds;
    ghost var s := b.x[..];
    var i, carry: nat := 0, a;
    MultAddStart(s, m, a);
    while true
      invariant i == 0 || i < wds
      invariant b.wds == wds && b.Valid() && b.sign == old(b.sign)
      invariant forall j :: i <= j < b.maxwds ==> b.x[j] == s[j]
      invariant carry < 0x8000_0000
      invariant MultAddInv(b.x[..i], s, i, m, a, carry)
      decreases wds - i
    {
      ghost var low, c := b.x[..i], carry;
      var w;
      w, carry := MulWord(b.x[i], m, carry);
      b.x[i] := w;
      assert b.x[..i + 1] == low + [w];
      MultAddStep(low, s, i, m, a, c, carry, w);
      i := i + 1;
      if i >= wds {
        break;
      }
    }
    if wds == 0 {
      MultAddZero(b.x[..1], s, m, carry);
    } else {
      assert s[..wds][..wds] == s[..wds] == old(b.x[..wds]);
      MultAddEnd(b.x[..wds], s[..wds], m, a, carry);
      if carry != 0 {
        r := PushWord(b, carry);
      }
    }
  }

  lemma MultAddZero(low: seq<Word>, s: seq<Word>, m: nat, c: nat)
    requires |s| > 0 && s[0] == 0
    requires MultAddInv(low, s, 1, m, 0, c)
    ensures c == 0 && low[0] == 0
  {
    ValueOne(s[..1]);
    ValueOne(low);
    MulMono(c, 1, Weight(1));
  }

  method I2B(i: nat) returns (b: Bigint)
    requires i < 0x8000_0000
    ensures fresh(b) && fresh(b.x) && b.Ok()
    ensures b.Value() == i && b.wds == 1 && b.k == 1 && b.sign == 0
  {
    b := new Bigint.Balloc(1);
    b.x[0] := i;
    b.wds := 1;
    ValueOne(b.x[..1]);
  }

  lemma TopWordWeighs(s: seq<Word>)
    requires |s| > 0 && s[|s| - 1] != 0
    ensures Value(s) >= Weight(|s| - 1)
  {
    hide Weight;
    ValueTop(s);
    MulMono(Weight(|s| - 1), 1, s[|s| - 1]);
  }

  /** Longer normal forms are larger numbers. */
  lemma LongerIsLarger(s: seq<Word>, t: seq<Word>)
    requires |s| > |t| && (|s| == 1 || s[|s| - 1] != 0)
    ensures Value(s) >= Value(t)
    ensures Value(s) != 0 ==> Value(s) > Value(t)
  {
    ValueBound(t);
    if |s| == 1 {
      assert t == [];
    } else {
      PowMono(BASE, |t|, |s| - 1);
      TopWordWeighs(s);
    }
  }

  /** The highest word that differs decides. */
  lemma TopDifferenceDecides(s: seq<Word>, t: seq<Word>, j: nat)
    requires |s| == |t| && j < |s| && s[j] < t[j] && s[j + 1..] == t[j + 1..]
    ensures Value(s) < Value(t)
  {
    hide Weight, Value;
    var sl, tl := s[..j + 1], t[..j + 1];
    ValueTop(sl);
    ValueTop(tl);
    MulMono(Weight(j), sl[j] + 1, tl[j]);
    assert s == sl + s[j + 1..] && t == tl + t[j + 1..];
    ValueConcat(sl, s[j + 1..]);
    ValueConcat(tl, t[j + 1..]);
  }

  /** Negative, zero or positive as a is below, equal to or above b. Two zeros may differ in length. */
  method Cmp(a: Bigint, b: Bigint) returns (r: int)
    requires a.Ok() && b.Ok() && (a.wds > 0 || b.wds > 0)
    ensures a.Value() < b.Value() ==> r < 0
    ensures a.Value() > b.Value() ==> r > 0
    ensures a.Value() == b.Value() ==> r == a.wds - b.wds
    ensures a.Value() == b.Value() > 0 ==> r == 0
  {
    var i, j := a.wds, b.wds;
    i := i - j;
    if i != 0 {
      if i > 0 {
        LongerIsLarger(a.x[..a.wds], b.x[..b.wds]);
      } else {
        LongerIsLarger(b.x[..b.wds], a.x[..a.wds]);
      }
      return i;
    }
    ghost var s, t := a.x[..j], b.x[..j];
    while true
      invariant 0 < j <= b.wds
      invariant s[j..] == t[j..]
      decreases j
    {
      j := j - 1;
      if a.x[j] != b.x[j] {
        if a.x[j] < b.x[j] {
          TopDifferenceDecides(s, t, j);
          return -1;
        }
        TopDifferenceDecides(t, s, j);
        return 1;
      }
      if j <= 0 {
        break;
      }
    }
    assert s == t;
    return 0;
  }

  /** All ones below i: the increment carries through. */
  lemma IncrementCarry(s: seq<Word>, t: seq<Word>, i: nat)
    requires i <= |s| && |t| == i
    requires forall j :: 0 <= j < i ==> s[j] == 0xFFFF_FFFF && t[j] == 0
    ensures Value(t) == 0 && Value(s[..i]) + 1 == Weight(i)
    decreases i
  {
    if i == 0 {
      assert s[..0] == [];
    } else {
      IncrementCarry(s, t[..i - 1], i - 1);
      ValueStep(s, i - 1);
      WeightStep(i - 1);
    }
  }

  lemma IncrementEnd(s: seq<Word>, t: seq<Word>, i: nat)
    requires i < |s| == |t| && s[i] < 0xFFFF_FFFF && t[i] == s[i] + 1 && t[i + 1..] == s[i + 1..]
    requires forall j :: 0 <= j < i ==> s[j] == 0xFFFF_FFFF && t[j] == 0
    ensures Value(t) == Value(s) + 1
  {
    hide Weight, Value;
    IncrementCarry(s, t[..i], i);
    ValueStep(s, i);
    ValueStep(t, i);
    Distribute(Weight(i), s[i], 1);
    assert s == s[..i + 1] + s[i + 1..] && t == t[..i + 1] + t[i + 1..];
    ValueConcat(s[..i + 1], s[i + 1..]);
    ValueConcat(t[..i + 1], t[i + 1..]);
  }

  /** Adds one. */
  method Increment(b: Bigint) returns (r: Bigint)
    requires b.Ok() && b.wds > 0
    modifies b, b.x
    ensures r == b || (fresh(r) && fresh(r.x))
    ensures r.Ok() && r.Value() == old(b.Value()) + 1
    ensures r.wds == old(b.wds) || (r.wds == old(b.wds) + 1 && r.Value() == Weight(old(b.wds)))
    ensures r.k >= b.k && r.sign == old(b.sign)
    ensures r.wds == old(b.wds) ==> r == b && forall j :: b.wds <= j < b.maxwds ==> b.x[j] == old(b.x[j])
  {
    ghost var s := b.x[..];
    var wds, i := b.wds, 0;
    while true
      invariant i < wds == b.wds && b.Ok() && b.sign == old(b.sign)
      invariant forall j :: 0 <= j < i ==> s[j] == 0xFFFF_FFFF && b.x[j] == 0
      invariant forall j :: i <= j < b.maxwds ==> b.x[j] == s[j]
      decreases wds - i
    {
      if b.x[i] < 0xFFFF_FFFF {
        b.x[i] := b.x[i] + 1;
        IncrementEnd(s[..wds], b.x[..wds], i);
        assert s[..wds] == old(b.x[..b.wds]);
        return b;
      }
      b.x[i] := 0;
      i := i + 1;
      if i >= wds {
        break;
      }
    }
    ghost var t := b.x[..wds];
    IncrementCarry(s, t, wds);
    assert s[..wds] == old(b.x[..b.wds]);
    r := PushWord(b, 1);
    ValueSnoc(t, 1);
  }

  lemma ZeroIsShort(a: Bigint)
    requires a.Ok() && a.Value() == 0
    ensures a.wds <= 1
  {
    if a.wds > 1 {
      LongerIsLarger(a.x[..a.wds], []);
      TopWordWeighs(a.x[..a.wds]);
    }
  }

  lemma NonEmpty(n: Bigint)
    requires n.Ok() && n.Value() > 0
    ensures n.wds > 0
  {
  }
}
