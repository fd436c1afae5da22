/** The bits of a mantissa that rounding looks at: single bits, and what a right shift is about to lose. */
module HexBits {
  import opened Words
  import opened Bigints
  import opened Shifts
  import opened RightShifts
  import opened BitCounts
  import opened Rounding

  /** A number in normal form has the words its bits need. */
  lemma WordsForBits(b: Bigint, n: nat)
    requires b.Ok() && HasBits(b.Value(), n)
    ensures b.wds == (n - 1) / 32 + 1
  {
    hide Words.Value, Weight, Pow;
    NonZeroBits(b.Value(), n);
    NonEmpty(b);
    var w := b.wds;
    ValueBound(b.x[..w]);
    WeightIsPow2(w);
    if n - 1 >= 32 * w {
      PowMono(2, 32 * w, n - 1);
    }
    if w > 1 {
      TopWordWeighs(b.x[..w]);
      WeightIsPow2(w - 1);
      if n <= 32 * (w - 1) {
        PowMono(2, n, 32 * (w - 1));
      }
    }
  }

  lemma BitLow(t: seq<Word>, r: nat)
    requires |t| > 0 && r < 32
    ensures t[0] / Pow(2, r) % 2 == Value(t) / Pow(2, r) % 2
  {
    assert Weight(1) == 0x1_0000_0000;
    hide Weight, Value;
    var x, h := t[0], t[1..];
    assert t == [x] + h;
    ValueConcat([x], h);
    ValueOne([x]);
    Pow2Odd(r);
    hide Pow;
    BitLowAlgebra(x, Value(h), Pow(2, r), Pow(2, 31 - r), Value(t));
  }

  lemma BitLowAlgebra(x: nat, h: nat, p: nat, q: nat, v: nat)
    requires p > 0 && p * (2 * q) == 0x1_0000_0000 && v == x + 0x1_0000_0000 * h
    ensures x / p % 2 == v / p % 2
  {
    var d, m := x / p, x % p;
    assert x == p * d + m;
    MulAssoc(p, 2 * q, h);
    Distribute(p, d, (2 * q) * h);
    QuotientIs(v, p, d + (2 * q) * h, m);
    MulAssoc(2, q, h);
  }

  lemma BitAt(s: seq<Word>, k: nat)
    requires k / 32 < |s|
    ensures s[k / 32] / Pow(2, k % 32) % 2 == Value(s) / Pow(2, k) % 2
  {
    hide Value, Pow;
    RShiftValue(s, k);
    BitLow(s[k / 32..], k % 32);
  }

  lemma BitAbove(s: seq<Word>, k: nat)
    requires k / 32 >= |s|
    ensures Value(s) / Pow(2, k) % 2 == 0 && 0 / Pow(2, k % 32) % 2 == 0
  {
    hide Value, Pow;
    RShiftAll(s, k);
    DivSmall(Value(s), Pow(2, k));
    DivSmall(0, Pow(2, k % 32));
  }

  /** Bit k, which may be in the word just above the top one when that is zero. */
  method BitOn(b: Bigint, k: nat) returns (r: bool)
    requires b.Ok() && k / 32 < b.maxwds && (k / 32 < b.wds || (k / 32 == b.wds && b.x[b.wds] == 0))
    ensures r <==> b.Value() / Pow(2, k) % 2 == 1
  {
    hide Words.Value, Pow;
    r := b.x[k / 32] / Pow(2, k % 32) % 2 == 1;
    if k / 32 < b.wds {
      BitAt(b.x[..b.wds], k);
    } else {
      BitAbove(b.x[..b.wds], k);
    }
  }

  lemma LostNothing(v: nat, n: nat)
    requires n > 0
    ensures Lost(v, n, false) == 0 <==> v % Pow(2, n) == 0
    ensures v % Pow(2, 0) == 0
  {
    var h := Pow(2, n - 1);
    assert Pow(2, n) == h * 2 && Pow(2, 0) == 1;
    DivDiv(v, h, 2);
    hide Pow;
    LowZero(v % h, h, v / h % 2);
  }

  /** What a shift by n loses of a number that is still exact. */
  method FirstLost(b: Bigint, n: nat) returns (lost: nat)
    requires b.Ok() && n > 0 && (n - 1) / 32 < b.wds
    ensures lost == Lost(b.Value(), n, false)
  {
    hide Words.Value, Pow;
    LostNothing(b.Value(), n);
    lost := 0;
    var any := AnyOn(b, n);
    if any {
      lost := 1;
      var k := n - 1;
      var bit := BitOn(b, k);
      if bit {
        lost := 2;
        if k > 0 {
          any := AnyOn(b, k);
          if any {
            lost := 3;
          }
        }
      }
    }
  }

  /** What a further shift by n loses of a number that has lost something or not. */
  method SecondLost(b: Bigint, n: nat, lost0: nat) returns (lost: nat)
    requires b.Ok() && n > 0 && (n - 1) / 32 < b.wds
    ensures lost == Lost(b.Value(), n, lost0 != 0)
  {
    hide Words.Value, Pow;
    LostNothing(b.Value(), n);
    var k := n - 1;
    lost := lost0;
    if lost != 0 {
      lost := 1;
    } else if k > 0 {
      var any := AnyOn(b, k);
      lost := if any then 1 else 0;
    }
    var bit := BitOn(b, k);
    if bit {
      // lost is 0 or 1 here, so the bitwise or with 2 is a sum
      lost := lost + 2;
    }
  }

  lemma HasBitsAfter(v: nat, n: nat, k: nat)
    requires HasBits(v, n) && k < n
    ensures HasBits(v / Pow(2, k), n - k) && v / Pow(2, k) > 0
  {
    PowAdd(2, n - k - 1, k);
    PowAdd(2, n - k, k);
    hide Pow;
    QuotientBetween(v, Pow(2, k), Pow(2, n - k - 1), Pow(2, n - k));
  }

  lemma QuotientBetween(v: nat, p: nat, lo: nat, hi: nat)
    requires p > 0 && lo > 0 && lo * p <= v < hi * p
    ensures lo <= v / p < hi
  {
    var q := v / p;
    assert v == p * q + v % p;
    if q < lo {
      MulMono(p, q + 1, lo);
      Distribute(p, q, 1);
    }
    if q >= hi {
      MulMono(p, hi, q);
    }
  }
}
