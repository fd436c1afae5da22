/** Powers and the little-endian value of a run of 32-bit words. */
module Words {

  const BASE: nat := 0x1_0000_0000

  type Word = w: int | 0 <= w < 0x1_0000_0000

  function Pow(b: nat, e: nat): (r: nat)
    ensures b > 0 ==> r > 0
    ensures e == 0 ==> r == 1
    ensures e == 1 ==> r == b
  {
    if e == 0 then 1 else b * Pow(b, e - 1)
  }

  lemma {:induction false} PowAdd(b: nat, d: nat, e: nat)
    ensures Pow(b, d + e) == Pow(b, d) * Pow(b, e)
  {
    if d == 0 {
    } else {
      PowAdd(b, d - 1, e);
      MulAssoc(b, Pow(b, d - 1), Pow(b, e));
    }
  }

  lemma {:induction false} PowPow(b: nat, d: nat, e: nat)
    ensures Pow(Pow(b, d), e) == Pow(b, d * e)
  {
    if e == 0 {
    } else {
      PowPow(b, d, e - 1);
      assert d * e == d + d * (e - 1);
      PowAdd(b, d, d * (e - 1));
    }
  }

  lemma {:induction false} PowMulBase(a: nat, b: nat, e: nat)
    ensures Pow(a * b, e) == Pow(a, e) * Pow(b, e)
  {
    if e == 0 {
    } else {
      PowMulBase(a, b, e - 1);
      MulSwap(a, b, Pow(a, e - 1), Pow(b, e - 1));
    }
  }

  lemma {:induction false} PowMono(b: nat, d: nat, e: nat)
    requires b >= 1 && d <= e
    ensures Pow(b, d) <= Pow(b, e)
  {
    PowAdd(b, d, e - d);
    MulMono(Pow(b, d), 1, Pow(b, e - d));
  }

  lemma {:induction false} PowStrict(b: nat, d: nat, e: nat)
    requires b >= 2 && d < e
    ensures Pow(b, d) < Pow(b, e)
  {
    PowMono(b, d, e - 1);
    assert Pow(b, e) == b * Pow(b, e - 1);
    MulMono(Pow(b, e - 1), 2, b);
  }

  lemma MulAssoc(a: int, b: int, c: int)
    ensures a * (b * c) == (a * b) * c
  {
  }

  lemma MulSwap(a: int, b: int, p: int, q: int)
    ensures (a * b) * (p * q) == (a * p) * (b * q)
  {
    calc {
      (a * b) * (p * q);
      { MulAssoc(a * b, p, q); }
      ((a * b) * p) * q;
      { MulAssoc(a, b, p); MulAssoc(a, p, b); assert b * p == p * b; }
      ((a * p) * b) * q;
      { MulAssoc(a * p, b, q); }
      (a * p) * (b * q);
    }
  }

  lemma Distribute(a: int, b: int, c: int)
    ensures a * (b + c) == a * b + a * c
    ensures (b + c) * a == b * a + c * a
  {
  }

  lemma MulMono(a: nat, b: int, c: int)
    requires b <= c
    ensures a * b <= a * c
  {
  }

  /** A positive factor keeps the order. */
  lemma OrderScales(a: nat, b: nat, c: nat)
    requires c > 0
    ensures a < b <==> a * c < b * c
    ensures a <= b <==> a * c <= b * c
  {
    if a < b {
      MulMono(c, a + 1, b);
      Distribute(c, a, 1);
    } else {
      MulMono(c, b, a);
    }
  }

  /** The weight of word i: 2^(32 i). */
  function Weight(i: nat): (r: nat)
    ensures r > 0
  {
    Pow(BASE, i)
  }

  lemma WeightStep(i: nat)
    ensures Weight(i + 1) == 0x1_0000_0000 * Weight(i)
  {
  }

  lemma WeightIsPow2(i: nat)
    ensures Weight(i) == Pow(2, 32 * i)
  {
    assert Pow(2, 32) == BASE by { Pow2Of32(); }
    PowPow(2, 32, i);
  }

  lemma Pow2Of32()
    ensures Pow(2, 32) == 0x1_0000_0000
    ensures Pow(2, 16) == 0x1_0000
    ensures Pow(2, 8) == 256
  {
    assert Pow(2, 8) == 256;
    PowAdd(2, 8, 8);
    PowAdd(2, 16, 16);
  }

  /** The number that the words of s spell, least significant word first. */
  function Value(s: seq<Word>): (v: nat)
    decreases |s|
  {
    if |s| == 0 then 0 else Value(s[..|s| - 1]) + s[|s| - 1] * Weight(|s| - 1)
  }

  lemma ValueSnoc(s: seq<Word>, w: Word)
    ensures Value(s + [w]) == Value(s) + w * Weight(|s|)
  {
    assert (s + [w])[..|s|] == s;
  }

  /** One more word of a prefix. */
  lemma ValueStep(s: seq<Word>, i: nat)
    requires i < |s|
    ensures Value(s[..i + 1]) == Value(s[..i]) + s[i] * Weight(i)
  {
    assert s[..i + 1] == s[..i] + [s[i]];
    ValueSnoc(s[..i], s[i]);
  }

  lemma {:induction false} ValueConcat(s: seq<Word>, t: seq<Word>)
    ensures Value(s + t) == Value(s) + Weight(|s|) * Value(t)
    decreases |t|
  {
    if |t| == 0 {
      assert s + t == s;
    } else {
      var t', w := t[..|t| - 1], t[|t| - 1];
      assert s + t == (s + t') + [w];
      ValueSnoc(s + t', w);
      ValueConcat(s, t');
      PowAdd(BASE, |s|, |t'|);
      var a, b, c := Weight(|s|), Value(t'), Weight(|t'|);
      MulSwap(1, w, a, c);
      Distribute(a, b, w * c);
    }
  }

  lemma {:induction false} ValueBound(s: seq<Word>)
    ensures Value(s) < Weight(|s|)
    decreases |s|
  {
    if |s| == 0 {
    } else {
      ValueBound(s[..|s| - 1]);
      WeightStep(|s| - 1);
      MulMono(Weight(|s| - 1), s[|s| - 1], 0xFFFF_FFFF);
    }
  }

  /** Leading zero words do not count. */
  lemma ValueTopZero(s: seq<Word>, n: nat)
    requires n <= |s|
    requires forall i :: n <= i < |s| ==> s[i] == 0
    ensures Value(s) == Value(s[..n])
    decreases |s|
  {
    if |s| == n {
      assert s[..n] == s;
    } else {
      ValueTopZero(s[..|s| - 1], n);
      assert s[..|s| - 1][..n] == s[..n];
    }
  }

  lemma ValueZeros(s: seq<Word>)
    requires forall i :: 0 <= i < |s| ==> s[i] == 0
    ensures Value(s) == 0
  {
    ValueTopZero(s, 0);
  }

  lemma ValueOne(s: seq<Word>)
    requires |s| == 1
    ensures Value(s) == s[0]
  {
    assert s[..0] == [];
  }

  /** A non-zero top word puts the value in the top block of its length. */
  lemma ValueTop(s: seq<Word>)
    requires |s| > 0
    ensures s[|s| - 1] * Weight(|s| - 1) <= Value(s) < (s[|s| - 1] + 1) * Weight(|s| - 1)
  {
    ValueBound(s[..|s| - 1]);
  }

  /** Quotient and remainder are the only ones that fit. */
  lemma QuotientIs(v: int, d: nat, q: int, r: int)
    requires v == d * q + r && 0 <= r < d
    ensures q == v / d && r == v % d
  {
    var q', r' := v / d, v % d;
    assert v == d * q' + r';
    if q < q' {
      MulMono(d, q + 1, q');
    } else if q' < q {
      MulMono(d, q' + 1, q);
    }
  }

  lemma Pow2Split(k: nat)
    ensures Pow(2, k) == Weight(k / 32) * Pow(2, k % 32)
  {
    WeightIsPow2(k / 32);
    PowAdd(2, 32 * (k / 32), k % 32);
  }

  /** The two halves of a word: 2^r and 2^(32-r). */
  lemma Pow2Halves(r: nat)
    requires 0 < r < 32
    ensures Pow(2, r) * Pow(2, 32 - r) == 0x1_0000_0000
    ensures 2 <= Pow(2, r) <= 0x8000_0000
    ensures Pow(2, r) % 2 == 0
  {
    Pow2Of32();
    PowAdd(2, r, 32 - r);
    PowMono(2, 1, r);
    PowMono(2, r, 31);
    assert Pow(2, 32) == 2 * Pow(2, 31);
  }

  lemma DivDiv(v: nat, a: nat, b: nat)
    requires a > 0 && b > 0
    ensures a * b > 0 && v / a / b == v / (a * b)
    ensures v % (a * b) == v % a + a * (v / a % b)
  {
    var q, r := v / a, v % a;
    var q', r' := q / b, q % b;
    assert v == a * q + r && q == b * q' + r';
    DivDivParts(v, a, b, q, r, q', r');
    QuotientIs(v, a * b, q', a * r' + r);
  }

  lemma DivDivParts(v: nat, a: nat, b: nat, q: nat, r: nat, q': nat, r': nat)
    requires v == a * q + r && q == b * q' + r' && r < a && r' < b
    ensures v == (a * b) * q' + (a * r' + r) && a * r' + r < a * b
  {
    MulAssoc(a, b, q');
    Distribute(a, b * q', r');
    MulMono(a, r' + 1, b);
    Distribute(a, r', 1);
  }
}
