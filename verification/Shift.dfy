/** Bit counts and shifts by any number of bits. */
module Shifts {
  import opened Words
  import opened Bigints

  /** Splits x by r bits: the part shifted out on top, and the rest moved up. */
  lemma ShiftSplit(x: Word, r: nat)
    requires 0 < r < 32
    ensures var p, q := Pow(2, r), Pow(2, 32 - r);
      && x == (x / q) * q + x % q
      && (x * p) % 0x1_0000_0000 == (x % q) * p <= 0x1_0000_0000 - p
      && 0 <= x / q < p
      && (x % q) * p + 0x1_0000_0000 * (x / q) == x * p
  {
    var p, q := Pow(2, r), Pow(2, 32 - r);
    Pow2Halves(r);
    Pow2Halves(32 - r);
    SplitAlgebra(x, p, q, x / q, x % q);
  }

  lemma SplitAlgebra(x: nat, p: nat, q: nat, h: nat, l: nat)
    requires p > 0 && q > 0 && p * q == 0x1_0000_0000 && x < 0x1_0000_0000
    requires h == x / q && l == x % q
    ensures x == h * q + l
    ensures (x * p) % 0x1_0000_0000 == l * p <= 0x1_0000_0000 - p
    ensures h < p && l * p + 0x1_0000_0000 * h == x * p
  {
    assert x == q * h + l;
    if h >= p {
      MulMono(q, p, h);
    }
    MulMono(p, l + 1, q);
    assert x * p == (q * h + l) * p == 0x1_0000_0000 * h + l * p by {
      Distribute(p, q * h, l);
      MulSwap(q, h, 1, p);
      MulAssoc(h, p, q);
    }
    QuotientIs(x * p, 0x1_0000_0000, h, l * p);
  }

  /** One word of a left shift by r bits; z holds the bits that came out of the word below. */
  method ShiftWord(x: Word, r: nat, z: Word) returns (w: Word, z': Word)
    requires 0 < r < 32 && z < Pow(2, r)
    ensures w + 0x1_0000_0000 * z' == x * Pow(2, r) + z
    ensures z' < Pow(2, r)
    ensures x != 0 && z' == 0 ==> w != 0
  {
    ShiftSplit(x, r);
    Pow2Halves(r);
    // the bits of z lie below those of x << r, so the bitwise or is a sum
    w := (x * Pow(2, r)) % 0x1_0000_0000 + z;
    z' := x / Pow(2, 32 - r);
  }

  /** The room for n1 words, found by doubling. */
  method RoomFor(k: nat, maxwds: nat, n1: nat) returns (k1: nat)
    requires maxwds == Pow(2, k)
    ensures k1 >= k && Pow(2, k1) >= n1
  {
    k1 := k;
    var i := maxwds;
    while n1 > i
      invariant k1 >= k && i == Pow(2, k1) > 0
      decreases n1 - i
    {
      i := 2 * i;
      k1 := k1 + 1;
    }
  }

  lemma ZerosBelow(z: seq<Word>, s: seq<Word>)
    requires forall i :: 0 <= i < |z| ==> z[i] == 0
    ensures Value(z + s) == Weight(|z|) * Value(s)
  {
    ValueZeros(z);
    ValueConcat(z, s);
  }

  method ZeroWords(b: Bigint, n: nat)
    requires b.Valid() && n <= b.maxwds
    modifies b.x
    ensures forall j :: 0 <= j < n ==> b.x[j] == 0
  {
    for i := 0 to n
      invariant forall j :: 0 <= j < i ==> b.x[j] == 0
    {
      b.x[i] := 0;
    }
  }

  /** Writes b shifted left by r bits into b1 from word n on; z is what is left for the word above. */
  method ShiftWords(b1: Bigint, n: nat, b: Bigint, r: nat) returns (z: Word, i: nat)
    requires b.Ok() && b1.Valid() && b1.x != b.x && 0 < r < 32
    requires n + b.wds < b1.maxwds
    modifies b1.x
    ensures i == if b.wds == 0 then 1 else b.wds
    ensures forall j :: 0 <= j < n ==> b1.x[j] == old(b1.x[j])
    ensures b.wds > 0 ==> MultAddInv(b1.x[n..n + b.wds], b.x[..b.wds], b.wds, Pow(2, r), 0, z)
    ensures b.wds == 0 ==> b1.x[n] == 0 && z == 0
    ensures b.wds > 0 && b.x[b.wds - 1] != 0 && z == 0 ==> b1.x[n + b.wds - 1] != 0
  {
    hide MultAddInv, Words.Value, Weight, Pow;
    var wds := b.wds;
    ghost var s, m := b.x[..wds], Pow(2, r);
    z, i := 0, 0;
    MultAddStart(s, m, 0);
    assert b1.x[n..n + i] == [];
    while true
      invariant i == 0 || i < wds
      invariant i == 0 ==> z == 0
      invariant z < Pow(2, r)
      invariant forall j :: 0 <= j < n ==> b1.x[j] == old(b1.x[j])
      invariant wds > 0 ==> MultAddInv(b1.x[n..n + i], s, i, m, 0, z)
      decreases wds - i
    {
      ghost var low, z0 := b1.x[n..n + i], z;
      var w: Word;
      w, z := ShiftWord(b.x[i], r, z);
      b1.x[n + i] := w;
      if wds > 0 {
        assert b1.x[n..n + i + 1] == low + [w];
        assert s[i] == b.x[i];
        MultAddStep(low, s, i, m, 0, z0, z, w);
      } else {
        ShiftZero(w, z, Pow(2, r));
      }
      i := i + 1;
      if i >= wds {
        break;
      }
    }
  }

  lemma ShiftZero(w: nat, z: nat, p: nat)
    requires w + 0x1_0000_0000 * z == 0 * p
    ensures w == 0 && z == 0
  {
  }

  /** Moves the words of b up by n places without a bit shift. */
  method CopyWords(b1: Bigint, n: nat, b: Bigint)
    requires b.Valid() && b1.Valid() && b1.x != b.x && 0 < b.wds && n + b.wds <= b1.maxwds
    modifies b1.x
    ensures forall j :: 0 <= j < n ==> b1.x[j] == old(b1.x[j])
    ensures b1.x[n..n + b.wds] == b.x[..b.wds]
  {
    var i := 0;
    while true
      invariant 0 <= i < b.wds
      invariant forall j :: 0 <= j < n ==> b1.x[j] == old(b1.x[j])
      invariant forall j :: 0 <= j < i ==> b1.x[n + j] == b.x[j]
      decreases b.wds - i
    {
      b1.x[n + i] := b.x[i];
      i := i + 1;
      if i >= b.wds {
        break;
      }
    }
  }

  lemma ShiftedValue(v: nat, k: nat, low: nat)
    requires low == v * Pow(2, k % 32)
    ensures Weight(k / 32) * low == v * Pow(2, k)
  {
    Pow2Split(k);
    MulSwap(1, Weight(k / 32), v, Pow(2, k % 32));
  }

  lemma LShiftEnd(zeros: seq<Word>, low: seq<Word>, z: Word, s: seq<Word>, k: nat)
    requires |zeros| == k / 32 && forall i :: 0 <= i < |zeros| ==> zeros[i] == 0
    requires MultAddInv(low, s, |s|, Pow(2, k % 32), 0, z)
    ensures Value(zeros + (low + [z])) == Value(s) * Pow(2, k)
    ensures z == 0 ==> Value(zeros + low) == Value(s) * Pow(2, k)
  {
    MultAddEnd(low, s, Pow(2, k % 32), 0, z);
    ZerosBelow(zeros, low + [z]);
    ZerosBelow(zeros, low);
    ShiftedValue(Value(s), k, Value(low + [z]));
    if z == 0 {
      ShiftedValue(Value(s), k, Value(low));
    }
  }

  lemma LShiftCopy(zeros: seq<Word>, s: seq<Word>, k: nat)
    requires k % 32 == 0 && |zeros| == k / 32 && forall i :: 0 <= i < |zeros| ==> zeros[i] == 0
    ensures Value(zeros + s) == Value(s) * Pow(2, k)
  {
    ZerosBelow(zeros, s);
    ShiftedValue(Value(s), k, Value(s));
  }

  lemma RoomTwo(k: nat, k1: nat)
    requires k1 >= k && Pow(2, k) >= 2
    ensures Pow(2, k1) >= 2
  {
    PowMono(2, k, k1);
  }

  /** The words of b shifted left by k bits, on top of k / 32 zero words; returns how many there are. */
  method PlaceShifted(b1: Bigint, b: Bigint, k: nat) returns (wds: nat)
    requires b.Ok() && b1.Valid() && b1.x != b.x && k % 32 != 0
    requires k / 32 + b.wds < b1.maxwds && (b.wds == 0 ==> k < 32 && b1.maxwds >= 2)
    requires b.Value() > 0 || k < 32
    requires forall j :: 0 <= j < k / 32 ==> b1.x[j] == 0
    modifies b1.x
    ensures wds <= b1.maxwds && (wds > 0 <==> b.wds > 0)
    ensures if wds == 0 then b1.x[0] == 0 else wds == 1 || b1.x[wds - 1] != 0
    ensures Words.Value(b1.x[..wds]) == b.Value() * Pow(2, k)
  {
    hide MultAddInv, Words.Value, Weight, Pow;
    var n := k / 32;
    ghost var zeros, s := b1.x[..n], b.x[..b.wds];
    var z, i := ShiftWords(b1, n, b, k % 32);
    if b.wds == 0 {
      b1.x[n + i] := z;
      ValueZeros(s);
      ValueZeros(b1.x[..0]);
      return 0;
    }
    ghost var low := b1.x[n..n + b.wds];
    b1.x[n + i] := z;
    wds := n + b.wds;
    LShiftEnd(zeros, low, z, s, k);
    Stacked(b1.x[..wds + 1], zeros, low, z);
    assert b1.x[..wds + 1][..wds] == b1.x[..wds];
    if z != 0 {
      wds := wds + 1;
    } else if b.wds == 1 {
      ValueOne(s);
    }
  }

  lemma Stacked(x: seq<Word>, zeros: seq<Word>, low: seq<Word>, z: Word)
    requires |x| == |zeros| + |low| + 1 && zeros <= x && x[|zeros|..|zeros| + |low|] == low && x[|zeros| + |low|] == z
    ensures x == zeros + (low + [z]) && x[..|zeros| + |low|] == zeros + low
  {
  }

  /** The same for a shift by whole words. */
  method PlaceWords(b1: Bigint, b: Bigint, k: nat)
    requires b.Ok() && b1.Valid() && b1.x != b.x && k % 32 == 0 && 0 < b.wds
    requires k / 32 + b.wds < b1.maxwds && (b.Value() > 0 || k < 32)
    requires forall j :: 0 <= j < k / 32 ==> b1.x[j] == 0
    modifies b1.x
    ensures var wds := k / 32 + b.wds;
      (wds == 1 || b1.x[wds - 1] != 0) && Words.Value(b1.x[..wds]) == b.Value() * Pow(2, k)
  {
    hide Words.Value, Weight, Pow;
    var n := k / 32;
    ghost var zeros, s := b1.x[..n], b.x[..b.wds];
    if b.wds == 1 {
      ValueOne(s);
    }
    CopyWords(b1, n, b);
    assert b1.x[n + b.wds - 1] == b1.x[n..n + b.wds][b.wds - 1];
    LShiftCopy(zeros, s, k);
    assert b1.x[..n + b.wds] == zeros + s;
  }

  /** b shifted left by k bits, in a new block. */
  method LShift(b: Bigint, k: nat) returns (b1: Bigint)
    requires b.Ok()
    requires b.Value() > 0 || k < 32
    requires b.wds == 0 ==> 0 < k && b.maxwds >= 2
    ensures fresh(b1) && fresh(b1.x) && b1.Ok()
    ensures b1.Value() == b.Value() * Pow(2, k)
    ensures b1.k >= b.k && b1.maxwds > k / 32 + b.wds
    ensures b1.sign == 0 && (b1.wds > 0 <==> b.wds > 0)
  {
    hide Words.Value, Weight, Pow;
    var n := k / 32;
    var n1 := n + b.wds + 1;
    var k1 := RoomFor(b.k, b.maxwds, n1);
    if b.wds == 0 {
      RoomTwo(b.k, k1);
      ValueZeros(b.x[..0]);
    }
    b1 := new Bigint.Balloc(k1);
    ZeroWords(b1, n);
    var wds := n1 - 1;
    if k % 32 != 0 {
      wds := PlaceShifted(b1, b, k);
    } else {
      PlaceWords(b1, b, k);
    }
    b1.wds := wds;
  }
}
