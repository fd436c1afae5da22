/** Packing hexadecimal digits into the words of a big integer, from the last digit to the first. */
module Packing {
  import opened Words
  import opened Bigints
  import opened BitCounts
  import opened HexText
  import opened Numerals

  /** The least k for which a block of 2^k words of eight digits holds n + 1 digits. */
  method RoomForDigits(n0: nat) returns (k: nat)
    ensures n0 + 1 <= 8 * Pow(2, k)
    ensures k > 0 ==> 8 * Pow(2, k - 1) <= n0
  {
    hide Pow;
    var n: nat := n0;
    k := 0;
    Pow2Steps(0);
    while n > 7
      invariant n == n0 / Pow(2, k)
      invariant k > 0 ==> 8 * Pow(2, k - 1) <= n0
      decreases n
    {
      Pow2Steps(k);
      DivDiv(n0, Pow(2, k), 2);
      QuotientBound(n0, Pow(2, k), n);
      n := n / 2;
      k := k + 1;
    }
    QuotientBound(n0, Pow(2, k), n);
  }

  lemma QuotientBound(n0: nat, p: nat, n: nat)
    requires p > 0 && n == n0 / p
    ensures n > 7 ==> 8 * p <= n0
    ensures n <= 7 ==> n0 + 1 <= 8 * p
  {
    assert n0 == p * n + n0 % p;
    if n > 7 {
      MulMono(p, 8, n);
    } else {
      MulMono(p, n, 7);
    }
  }

  /** The digits of t are in the words and in the n low bits of L. */
  ghost predicate Packed(words: seq<Word>, L: nat, n: nat, t: string)
  {
    AllHex(t) && n % 4 == 0 && n <= 32 && |t| == 8 * |words| + n / 4 && L < Pow(2, n) &&
    HexValue(t) == Value(words) + L * Weight(|words|)
  }

  lemma PackedStart()
    ensures Packed([], 0, 0, [])
  {
  }

  lemma PackedFits(words: seq<Word>, L: nat, n: nat, t: string)
    requires Packed(words, L, n, t)
    ensures L < 0x1_0000_0000 && n <= 32 && |t| == 8 * |words| + n / 4 && n % 4 == 0 && AllHex(t)
  {
    Pow2Of32();
    PowMono(2, n, 32);
  }

  lemma PackedFull(words: seq<Word>, L: Word, t: string)
    requires Packed(words, L, 32, t)
    ensures Packed(words + [L], 0, 0, t)
  {
    ValueSnoc(words, L);
  }

  /** One more digit in front of t. */
  lemma PackedDigit(words: seq<Word>, L: nat, n: nat, t: string, c: char)
    requires Packed(words, L, n, t) && n < 32 && IsHex(c)
    ensures Packed(words, L + HexDigit(c) * Pow(2, n), n + 4, [c] + t)
  {
    hide Pow, Value, HexValue, Weight;
    var d, w := HexDigit(c), Weight(|words|);
    HexValueCons(c, t);
    SixteenWeight(|words|, n, |t|);
    Pow2Steps(n);
    DigitBelow(L, d, Pow(2, n), w);
  }

  lemma SixteenWeight(k: nat, n: nat, m: nat)
    requires n % 4 == 0 && m == 8 * k + n / 4
    ensures Pow(16, m) == Weight(k) * Pow(2, n)
  {
    WeightIsPow2(k);
    PowAdd(2, 32 * k, n);
    assert Pow(2, 4) == 16;
    PowPow(2, 4, m);
  }

  lemma DigitBelow(L: nat, d: nat, p: nat, w: nat)
    requires L < p && d < 16
    ensures L + d * p < 16 * p
    ensures (L + d * p) * w == L * w + d * (w * p)
  {
    MulMono(p, d, 15);
    Distribute(w, L, d * p);
    MulAssoc(d, p, w);
  }

  lemma PackedLast(words: seq<Word>, L: Word, n: nat, t: string)
    requires Packed(words, L, n, t)
    ensures Value(words + [L]) == HexValue(t)
  {
    ValueSnoc(words, L);
  }

  lemma StripStep(s: string, i: nat, end: nat)
    requires i < end <= |s|
    ensures Strip(s[i..end]) == (if s[i] == '.' then Strip(s[i + 1..end]) else [s[i]] + Strip(s[i + 1..end]))
  {
    assert s[i..end][1..] == s[i + 1..end];
  }

  lemma Sixteen()
    ensures Pow(2, 4) == 16
  {
  }

  /** The top word is not zero when the first digit is not. */
  lemma TopNotZero(words: seq<Word>, L: nat, n: nat, t: string)
    requires Packed(words, L, n, t) && |t| > 0 && t[0] != '0' && n > 0
    ensures L != 0
  {
    hide HexValue, Words.Value, Weight, Pow, IsHex;
    var m := |t| - 1;
    LeadingDigit(t);
    if L == 0 {
      ValueBound(words);
      WeightIsPow2(|words|);
      Sixteen();
      PowPow(2, 4, m);
      PowMono(2, 32 * |words|, 4 * m);
    }
  }

  lemma Empty(s: string, i: nat)
    requires i <= |s|
    ensures Strip(s[i..i]) == []
  {
  }

  /** The digits at s0..end as a big integer, with the number of its bits. */
  method Pack(s: string, s0: nat, end: nat) returns (b: Bigint, n: nat)
    requires s0 < end <= |s| && IsHex(s[s0]) && s[s0] != '0'
    requires forall i :: s0 <= i < end ==> s[i] == '.' || IsHex(s[i])
    ensures fresh(b) && fresh(b.x) && b.Ok() && b.wds > 0
    ensures AllHex(Strip(s[s0..end])) && b.Value() == HexValue(Strip(s[s0..end])) && HasBits(b.Value(), n)
  {
    hide Pow, Weight, Words.Value, HexValue, Strip, Packed, HasBits, IsHex;
    var k := RoomForDigits(end - s0 - 1);
    b := new Bigint.Balloc(k);
    n := 0;
    var L: Word := 0;
    var s1, x := end, 0;
    PackedStart();
    Empty(s, end);
    assert b.x[..x] == [];
    PointIsNoDigit();
    while s1 > s0
      invariant s0 <= s1 <= end && 0 <= x < b.maxwds && b.wds == 0 && b.Valid()
      invariant Packed(b.x[..x], L, n, Strip(s[s1..end]))
      invariant |Strip(s[s1..end])| <= end - s1
      invariant s1 == s0 ==> n > 0 && |Strip(s[s1..end])| > 0 && Strip(s[s1..end])[0] == s[s0]
    {
      ghost var t := Strip(s[s1..end]);
      s1 := s1 - 1;
      StripStep(s, s1, end);
      if s[s1] == '.' {
        continue;
      }
      PackedFits(b.x[..x], L, n, t);
      if n == 32 {
        ghost var low := b.x[..x];
        PackedFull(low, L, t);
        b.x[x] := L;
        assert b.x[..x + 1] == low + [L];
        x := x + 1;
        L, n := 0, 0;
      }
      // the digit goes above the n bits of L, so the bitwise or is a sum
      PackedDigit(b.x[..x], L, n, t, s[s1]);
      PackedFits(b.x[..x], L + HexDigit(s[s1]) * Pow(2, n), n + 4, [s[s1]] + t);
      L, n := L + HexDigit(s[s1]) * Pow(2, n), n + 4;
    }
    n := PackTop(b, x, L, n, Strip(s[s0..end]));
  }

  /** The last word, and the bits of the whole. */
  method PackTop(b: Bigint, x: nat, L: Word, ghost n0: nat, ghost t: string) returns (n: nat)
    requires b.Valid() && x < b.maxwds && Packed(b.x[..x], L, n0, t) && n0 > 0 && |t| > 0 && t[0] != '0'
    modifies b`wds, b.x
    ensures b.Ok() && b.wds > 0 && AllHex(t) && b.Value() == HexValue(t) && HasBits(b.Value(), n)
  {
    hide Pow, Weight, Words.Value, HexValue, Packed, HasBits, IsHex;
    ghost var low := b.x[..x];
    PackedFits(low, L, n0, t);
    PackedLast(low, L, n0, t);
    TopNotZero(low, L, n0, t);
    b.x[x] := L;
    b.wds := x + 1;
    assert b.x[..b.wds] == low + [L];
    var h := Hi0Bits(L);
    n := 32 * b.wds - h;
    BitsFromTop(b.x[..b.wds], h);
  }

  lemma PointIsNoDigit()
    ensures !IsHex('.')
  {
  }
}
