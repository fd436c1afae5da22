/** Counting bits: hi0bits, lo0bits, trailz, any_on, and what they say about the value. */
module BitCounts {
  import opened Words
  import opened Bigints
  import opened Shifts
  import opened RightShifts

  /** v has exactly n binary digits. */
  ghost predicate HasBits(v: nat, n: nat)
  {
    n > 0 && Pow(2, n - 1) <= v < Pow(2, n)
  }

  lemma HasBitsUnique(v: nat, m: nat, n: nat)
    requires HasBits(v, m) && HasBits(v, n)
    ensures m == n
  {
    if m < n {
      PowMono(2, m, n - 1);
    } else if n < m {
      PowMono(2, n, m - 1);
    }
  }

  lemma NonZeroBits(v: nat, n: nat)
    requires HasBits(v, n)
    ensures v > 0 && n > 0
  {
  }

  /** Shifting by k bits adds k binary digits. */
  lemma HasBitsShift(v: nat, n: nat, k: nat)
    requires HasBits(v, n)
    ensures HasBits(v * Pow(2, k), n + k)
  {
    PowAdd(2, n - 1, k);
    PowAdd(2, n, k);
    OrderScales(Pow(2, n - 1), v, Pow(2, k));
    OrderScales(v, Pow(2, n), Pow(2, k));
  }

  /** The number of leading zero bits of a word. */
  method Hi0Bits(x0: Word) returns (k: nat)
    ensures x0 == 0 ==> k == 32
    ensures x0 != 0 ==> k < 32 && HasBits(x0, 32 - k)
  {
    hide Pow, HasBits;
    var x: Word := x0;
    k := 0;
    Pow2Steps(0);
    if x < 0x1_0000 {
      k := 16;
      x := x * 0x1_0000;
      Pow2Steps(0);
    }
    assert x == x0 * Pow(2, k) && (x != 0 ==> x >= 0x1_0000);
    if x < 0x100_0000 {
      Pow2Steps(k);
      k := k + 8;
      x := x * 0x100;
      Times(x0, Pow(2, k - 8), 0x100);
    }
    assert x == x0 * Pow(2, k) && (x != 0 ==> x >= 0x100_0000);
    if x < 0x1000_0000 {
      Pow2Steps(k);
      k := k + 4;
      x := x * 0x10;
      Times(x0, Pow(2, k - 4), 0x10);
    }
    if x < 0x4000_0000 {
      Pow2Steps(k);
      k := k + 2;
      x := x * 4;
      Times(x0, Pow(2, k - 2), 4);
    }
    if x < 0x8000_0000 {
      Pow2Steps(k);
      k := k + 1;
      if x < 0x4000_0000 {
        NonZeroScaled(x0, Pow(2, k - 1));
        return 32;
      }
      Times(x0, Pow(2, k - 1), 2);
    }
    Hi0BitsEnd(x0, k);
  }

  lemma Times(a: int, b: int, c: int)
    ensures a * (c * b) == c * (a * b)
  {
  }

  lemma NonZeroScaled(x: nat, p: nat)
    requires p > 0
    ensures x * p == 0 ==> x == 0
    ensures x != 0 ==> x * p >= p
  {
  }

  lemma Pow2Steps(k: nat)
    ensures Pow(2, 0) == 1 && Pow(2, 16) == 0x1_0000
    ensures Pow(2, k + 8) == 0x100 * Pow(2, k)
    ensures Pow(2, k + 4) == 0x10 * Pow(2, k)
    ensures Pow(2, k + 2) == 4 * Pow(2, k)
    ensures Pow(2, k + 1) == 2 * Pow(2, k)
  {
    Pow2Of32();
    assert Pow(2, k + 2) == 2 * Pow(2, k + 1);
    assert Pow(2, k + 4) == 4 * Pow(2, k + 2);
    assert Pow(2, k + 6) == 4 * Pow(2, k + 4);
    assert Pow(2, k + 8) == 4 * Pow(2, k + 6);
  }

  lemma Hi0BitsEnd(x0: Word, k: nat)
    requires 0x8000_0000 <= x0 * Pow(2, k) < 0x1_0000_0000
    ensures k < 32 && HasBits(x0, 32 - k)
  {
    Pow2Of32();
    assert Pow(2, 32) == 2 * Pow(2, 31);
    hide Pow;
    if k >= 32 {
      PowMono(2, 32, k);
      NonZeroScaled(x0, Pow(2, k));
    }
    PowAdd(2, 32 - k, k);
    PowAdd(2, 31 - k, k);
    OrderScales(x0, Pow(2, 32 - k), Pow(2, k));
    OrderScales(Pow(2, 31 - k), x0, Pow(2, k));
  }

  /** The bits of a number: those of its top word and 32 for every word below. */
  lemma BitsFromTop(s: seq<Word>, h: nat)
    requires |s| > 0 && h < 32 && HasBits(s[|s| - 1], 32 - h)
    ensures HasBits(Value(s), 32 * |s| - h)
  {
    hide Weight, Value;
    var m := |s| - 1;
    ValueTop(s);
    WeightIsPow2(m);
    PowAdd(2, 31 - h, 32 * m);
    PowAdd(2, 32 - h, 32 * m);
    assert 31 - h + 32 * m == 32 * |s| - h - 1 && 32 - h + 32 * m == 32 * |s| - h;
    ScaledBetween(Pow(2, 31 - h), s[m], Pow(2, 32 - h), Weight(m), Value(s));
  }

  lemma ScaledBetween(lo: nat, w: nat, hi: nat, p: nat, v: nat)
    requires lo <= w < hi && w * p <= v < (w + 1) * p
    ensures lo * p <= v < hi * p
  {
    MulMono(p, lo, w);
    MulMono(p, w + 1, hi);
  }

  lemma ShiftOut(x0: int, x: int, y: int, c: int, p: int, p': int)
    requires x0 == x * p && x == c * y && p' == c * p
    ensures x0 == y * p'
  {
    MulSwap(1, c, y, p);
  }

  /** x with its trailing zero bits shifted out, and how many there were. */
  method Lo0Bits(x0: Word) returns (k: nat, y: Word)
    ensures x0 == 0 ==> k == 32 && y == 0
    ensures x0 != 0 ==> k < 32 && x0 == y * Pow(2, k) && y % 2 == 1
  {
    hide Pow;
    Pow2Steps(0);
    var x := x0;
    if x % 8 != 0 {
      if x % 2 != 0 {
        return 0, x;
      }
      if x / 2 % 2 != 0 {
        return 1, x / 2;
      }
      return 2, x / 4;
    }
    k := 0;
    if x % 0x1_0000 == 0 {
      k := 16;
      x := x / 0x1_0000;
    }
    assert x0 == x * Pow(2, k);
    if x % 0x100 == 0 {
      Pow2Steps(k);
      k := k + 8;
      ShiftOut(x0, x, x / 0x100, 0x100, Pow(2, k - 8), Pow(2, k));
      x := x / 0x100;
    }
    k, x := Lo0Byte(x0, k, x);
    if x == 0 {
      return 32, x0;
    }
    y := x;
    Lo0BitsEnd(x0, y, k);
  }

  lemma NotDivisible(y: nat)
    ensures y % 0x10 == 0 && y % 0x100 != 0 ==> y / 0x10 % 0x10 != 0
    ensures y % 4 == 0 && y % 0x10 != 0 ==> y / 4 % 4 != 0
    ensures y % 2 == 0 && y % 4 != 0 ==> y / 2 % 2 == 1
  {
  }

  /** The last steps of lo0bits, when the lowest byte is not zero. */
  method Lo0Byte(x0: Word, k0: nat, x: Word) returns (k: nat, y: Word)
    requires x0 == x * Pow(2, k0) && (x0 != 0 ==> x % 0x100 != 0)
    ensures x0 == y * Pow(2, k) && (x0 == 0 <==> y == 0) && (x0 != 0 ==> y % 2 == 1)
  {
    hide Pow;
    k, y := k0, x;
    if y % 0x10 == 0 {
      Pow2Steps(k);
      k := k + 4;
      ShiftOut(x0, y, y / 0x10, 0x10, Pow(2, k - 4), Pow(2, k));
      NotDivisible(y);
      y := y / 0x10;
    }
    assert x0 != 0 ==> y % 0x10 != 0;
    if y % 4 == 0 {
      Pow2Steps(k);
      k := k + 2;
      ShiftOut(x0, y, y / 4, 4, Pow(2, k - 2), Pow(2, k));
      NotDivisible(y);
      y := y / 4;
    }
    assert x0 != 0 ==> y % 4 != 0;
    if y % 2 == 0 {
      Pow2Steps(k);
      k := k + 1;
      ShiftOut(x0, y, y / 2, 2, Pow(2, k - 1), Pow(2, k));
      NotDivisible(y);
      y := y / 2;
    }
    NonZeroScaled(y, Pow(2, k));
  }

  lemma Lo0BitsEnd(x0: Word, y: Word, k: nat)
    requires x0 == y * Pow(2, k) && y > 0
    ensures k < 32
  {
    if k >= 32 {
      Pow2Of32();
      PowMono(2, 32, k);
      NonZeroScaled(y, Pow(2, k));
    }
  }

  /** The value is odd times 2^n. */
  ghost predicate OddTimes(v: nat, n: nat)
  {
    exists o: nat :: o % 2 == 1 && v == o * Pow(2, n)
  }

  /** The number of trailing zero bits. */
  method Trailz(b: Bigint) returns (n: nat)
    requires b.Ok()
    ensures b.Value() == 0 ==> n == 32 * b.wds
    ensures b.Value() > 0 ==> OddTimes(b.Value(), n)
  {
    hide OddTimes;
    n := 0;
    var x := 0;
    while x < b.wds && b.x[x] == 0
      invariant x <= b.wds && n == 32 * x
      invariant forall j :: 0 <= j < x ==> b.x[j] == 0
    {
      n := n + 32;
      x := x + 1;
    }
    if x < b.wds {
      var k, y := Lo0Bits(b.x[x]);
      TrailzValue(b.x[..b.wds], x, k, y);
      n := n + k;
    } else {
      ValueZeros(b.x[..b.wds]);
    }
  }

  lemma TrailzValue(s: seq<Word>, x: nat, k: nat, y: nat)
    requires x < |s| && forall j :: 0 <= j < x ==> s[j] == 0
    requires k < 32 && s[x] == y * Pow(2, k) && y % 2 == 1
    ensures Value(s) > 0 && OddTimes(Value(s), 32 * x + k)
  {
    hide Weight, Value, Pow;
    var z, h := s[..x], s[x + 1..];
    assert s == (z + [s[x]]) + h;
    ValueConcat(z + [s[x]], h);
    ValueSnoc(z, s[x]);
    ValueZeros(z);
    WeightStep(x);
    WeightIsPow2(x);
    PowAdd(2, 32 * x, k);
    Pow2Odd(k);
    TrailzAlgebra(y, Pow(2, k), Pow(2, 32 - k), Weight(x), Value(h), Value(s));
    OddSum(y, Pow(2, 31 - k), Value(h));
    var o := y + Pow(2, 32 - k) * Value(h);
    assert Value(s) == o * Pow(2, 32 * x + k);
    NonZeroScaled(o, Pow(2, 32 * x + k));
  }

  lemma OddSum(y: nat, q: nat, h: nat)
    requires y % 2 == 1
    ensures (y + (2 * q) * h) % 2 == 1
  {
    MulAssoc(2, q, h);
  }

  lemma Pow2Odd(k: nat)
    requires k < 32
    ensures Pow(2, k) * Pow(2, 32 - k) == 0x1_0000_0000
    ensures Pow(2, 32 - k) == 2 * Pow(2, 31 - k)
  {
    Pow2Of32();
    PowAdd(2, k, 32 - k);
  }

  lemma TrailzAlgebra(y: int, p: int, q: int, w: int, h: int, v: int)
    requires p * q == 0x1_0000_0000
    requires v == (y * p) * w + (0x1_0000_0000 * w) * h
    ensures v == (y + q * h) * (w * p)
  {
    calc {
      (y + q * h) * (w * p);
      { Distribute(w * p, y, q * h); }
      y * (w * p) + (q * h) * (w * p);
      { MulAssoc(y, p, w); assert w * p == p * w; MulSwap(q, h, p, w); assert q * p == p * q; }
      (y * p) * w + 0x1_0000_0000 * (h * w);
    }
  }

  /** Whether any of the k lowest bits is set. */
  method AnyOn(b: Bigint, k: nat) returns (r: bool)
    requires b.Ok()
    ensures r <==> b.Value() % Pow(2, k) != 0
  {
    hide Words.Value, Weight, Pow;
    ghost var s := b.x[..b.wds];
    var n := k / 32;
    if n > b.wds {
      n := b.wds;
    } else if n < b.wds && k % 32 != 0 {
      if b.x[n] / Pow(2, k % 32) * Pow(2, k % 32) != b.x[n] {
        LowBits(s, k);
        return true;
      }
    }
    var x := n;
    while x > 0
      invariant 0 <= x <= n <= b.wds
      invariant forall j :: x <= j < n ==> b.x[j] == 0
    {
      x := x - 1;
      if b.x[x] != 0 {
        LowBits(s, k);
        NonZeroWord(s, n, x);
        return true;
      }
    }
    assert forall j :: 0 <= j < n ==> s[j] == 0;
    LowBits(s, k);
    ValueZeros(s[..n]);
    return false;
  }

  lemma NonZeroWord(s: seq<Word>, n: nat, x: nat)
    requires x < n <= |s| && s[x] != 0
    ensures Value(s[..n]) != 0
    decreases n
  {
    ValueStep(s, n - 1);
    if x < n - 1 {
      NonZeroWord(s, n - 1, x);
    } else {
      NonZeroScaled(s[x], Weight(x));
    }
  }

  /** The k lowest bits: whole words, then the low bits of one word. */
  lemma LowBits(s: seq<Word>, k: nat)
    ensures k / 32 >= |s| ==> Value(s) % Pow(2, k) == Value(s) && s[..|s|] == s
    ensures k / 32 < |s| ==>
      var p := Pow(2, k % 32);
      (Value(s) % Pow(2, k) == 0 <==> Value(s[..k / 32]) == 0 && s[k / 32] / p * p == s[k / 32])
    ensures k / 32 < |s| && k % 32 == 0 ==> s[k / 32] / Pow(2, k % 32) * Pow(2, k % 32) == s[k / 32]
  {
    hide Weight, Value;
    var n, p := k / 32, Pow(2, k % 32);
    if n >= |s| {
      RShiftAll(s, k);
      QuotientIs(Value(s), Pow(2, k), 0, Value(s));
    } else {
      Pow2Split(k);
      DropWords(s, n);
      DivDiv(Value(s), Weight(n), p);
      LowWord(s[n..], k % 32);
      LowZero(Value(s[..n]), Weight(n), Value(s[n..]) % p);
    }
  }

  lemma LowZero(l: nat, w: nat, h: nat)
    requires w > 0
    ensures l + w * h == 0 <==> l == 0 && h == 0
  {
    NonZeroScaled(h, w);
  }

  /** Below 32 bits only the lowest word matters. */
  lemma LowWord(t: seq<Word>, r: nat)
    requires |t| > 0 && r < 32
    ensures Value(t) % Pow(2, r) == 0 <==> t[0] / Pow(2, r) * Pow(2, r) == t[0]
    ensures r == 0 ==> t[0] / Pow(2, r) * Pow(2, r) == t[0]
  {
    assert Weight(1) == 0x1_0000_0000;
    hide Weight, Value;
    var p, x, h := Pow(2, r), t[0], t[1..];
    assert t == [x] + h;
    ValueConcat([x], h);
    ValueOne([x]);
    Pow2Odd(r);
    LowWordAlgebra(Value(t), p, Pow(2, 32 - r), x, Value(h));
  }

  lemma LowWordAlgebra(v: nat, p: nat, q: nat, x: nat, h: nat)
    requires p > 0 && p * q == 0x1_0000_0000 && v == x + 0x1_0000_0000 * h
    ensures v % p == 0 <==> x / p * p == x
    ensures p == 1 ==> x / p * p == x
  {
    var d, m := x / p, x % p;
    assert x == p * d + m;
    MulAssoc(p, q, h);
    Distribute(p, d, q * h);
    QuotientIs(v, p, d + q * h, m);
  }
}
