/** quorem: one quotient digit, and the remainder left in place of the dividend. */
module Quorems {
  import opened Words
  import opened Bigints
  import opened Differences

  /** s*q plus the carry, split in two words. */
  method ScaleWord(s: Word, q: nat, carry: nat) returns (ys: Word, carry': nat)
    requires q <= 0xFFFF && carry <= 0xFFFF
    ensures carry' <= 0xFFFF && ys + 0x1_0000_0000 * carry' == s * q + carry
  {
    ScaleBound(s, q);
    var z := s * q + carry;
    ys, carry' := z % 0x1_0000_0000, z / 0x1_0000_0000;
  }

  lemma ScaleBound(s: Word, q: nat)
    requires q <= 0xFFFF
    ensures 0 <= s * q <= 0xFFFF_FFFF * 0xFFFF
  {
    MulMono(s, q, 0xFFFF);
  }

  /** c holds the low i words of u - q*s, with a charge still to make at weight i. */
  ghost predicate ChargeInv(c: seq<Word>, u: seq<Word>, s: seq<Word>, i: nat, q: nat, charge: nat)
  {
    |c| == i <= |u| == |s| &&
    Value(c) == Value(u[..i]) - Value(s[..i]) * q + charge * Weight(i)
  }

  lemma ChargeStart(u: seq<Word>, s: seq<Word>, q: nat)
    requires |u| == |s|
    ensures ChargeInv([], u, s, 0, q, 0)
  {
    assert u[..0] == [] == s[..0];
  }

  lemma ChargeStep(c: seq<Word>, u: seq<Word>, s: seq<Word>, i: nat, q: nat, carry: nat, borrow: nat,
                   ys: Word, carry': nat, w: Word, borrow': nat)
    requires i < |u| && ChargeInv(c, u, s, i, q, carry + borrow)
    requires ys + 0x1_0000_0000 * carry' == s[i] * q + carry
    requires w - 0x1_0000_0000 * borrow' == u[i] - ys - borrow
    ensures ChargeInv(c + [w], u, s, i + 1, q, carry' + borrow')
  {
    hide Weight, Value;
    ValueSnoc(c, w);
    ValueStep(u, i);
    ValueStep(s, i);
    WeightStep(i);
    ChargeAlgebra(Weight(i), Value(c), Value(u[..i]), Value(s[..i]), u[i], s[i], q, carry + borrow, carry' + borrow',
      w);
    Distribute(q, Value(s[..i]), s[i] * Weight(i));
  }

  lemma ChargeAlgebra(p: int, c: int, uv: int, sv: int, u: int, s: int, q: int, charge: int, charge': int, w: int)
    requires c == uv - sv * q + charge * p
    requires w == u - s * q - charge + 0x1_0000_0000 * charge'
    ensures c + w * p == uv + u * p - (sv * q + (s * p) * q) + charge' * (0x1_0000_0000 * p)
  {
    var k := 0x1_0000_0000 * charge';
    calc {
      w * p;
      (u - s * q - charge + k) * p;
      u * p - (s * q) * p - charge * p + k * p;
      { MulAssoc(s, q, p); MulAssoc(s, p, q); MulAssoc(charge', 0x1_0000_0000, p); }
      u * p - (s * p) * q - charge * p + charge' * (0x1_0000_0000 * p);
    }
  }

  /** Nothing is left to charge when q*s does not exceed u. */
  lemma ChargeEnd(c: seq<Word>, u: seq<Word>, s: seq<Word>, q: nat, charge: nat)
    requires ChargeInv(c, u, s, |s|, q, charge) && Value(s) * q <= Value(u)
    ensures Value(c) == Value(u) - Value(s) * q
  {
    hide Weight, Value;
    assert s[..|s|] == s && u[..|u|] == u;
    ValueBound(c);
    NothingLeft(Value(c), Value(u) - Value(s) * q, charge, Weight(|s|));
  }

  /** The do-while loop of quorem: takes q times S away from the words of b, word by word. */
  method TakeAway(b: Bigint, S: Bigint, q: nat)
    requires b.Valid() && S.Ok() && b.x != S.x && 0 < S.wds == b.wds && q <= 0xFFFF
    requires S.Value() * q <= b.Value()
    modifies b.x
    ensures b.Value() == old(b.Value()) - S.Value() * q
  {
    hide Words.Value, Weight, Pow, ChargeInv;
    var n := S.wds;
    ghost var u, s := b.x[..n], S.x[..n];
    var i, carry, borrow := 0, 0, 0;
    ChargeStart(u, s, q);
    assert b.x[..i] == [];
    while true
      invariant 0 <= i < n && carry <= 0xFFFF && borrow <= 1
      invariant forall j :: i <= j < n ==> b.x[j] == u[j]
      invariant ChargeInv(b.x[..i], u, s, i, q, carry + borrow)
      decreases n - i
    {
      ghost var low, carry0, borrow0 := b.x[..i], carry, borrow;
      var ys, w;
      ys, carry := ScaleWord(S.x[i], q, carry);
      w, borrow := SubWord(b.x[i], ys, borrow);
      b.x[i] := w;
      assert b.x[..i + 1] == low + [w];
      ChargeStep(low, u, s, i, q, carry0, borrow0, ys, carry, w, borrow);
      i := i + 1;
      if i >= n {
        break;
      }
    }
    ChargeEnd(b.x[..n], u, s, q, carry + borrow);
  }

  /** Drops zero words on top of b, but keeps its lowest word when S has more than one. */
  method DropZeros(b: Bigint, n0: nat) returns (n: nat)
    requires b.Valid() && b.wds == n0 + 1
    modifies b`wds
    ensures b.Ok() && b.Value() == old(b.Value())
    ensures b.wds <= n0 + 1
    ensures b.wds == 0 <==> n0 == 0 && b.Value() == 0
    ensures b.wds == n0 + 1 ==> n == n0
  {
    hide Words.Value, Pow;
    n := n0;
    var bxe := n;
    ValueOne(b.x[..1]);
    ValueZeros(b.x[..0]);
    if b.x[bxe] == 0 {
      bxe := bxe - 1;
      while bxe > 0 && b.x[bxe] == 0
        invariant n == bxe + 1 && n <= n0
        invariant bxe >= 0 || n0 == 0
        invariant forall j :: n <= j <= n0 ==> b.x[j] == 0
      {
        n := n - 1;
        bxe := bxe - 1;
      }
      b.wds := n;
      ValueTopZero(b.x[..n0 + 1], n);
      assert b.x[..n0 + 1][..n] == b.x[..n];
    }
  }

  /** The trial quotient taken from the top words never exceeds the quotient and is at most one too
      small, when S fills at least 28 bits of its top word and the quotient is a decimal digit. */
  lemma TrialQuotient(b: nat, S: nat, t: nat, s: nat, p: nat, q: nat)
    requires p > 0 && 0x800_0000 <= s && q == t / (s + 1) && q <= 9
    requires t * p <= b < (t + 1) * p && s * p <= S < (s + 1) * p
    ensures S * q <= b < S * (q + 2)
  {
    TrialParts(t, s, q);
    TrialLow(b, S, t, s + 1, p, q);
    TrialHigh(b, S, t, s, p, q);
  }

  lemma TrialParts(t: nat, s: nat, q: nat)
    requires s >= 10 && q == t / (s + 1) && q <= 9
    ensures (s + 1) * q <= t && t + 1 <= s * (q + 2)
  {
    var r := t % (s + 1);
    assert t == (s + 1) * q + r && r <= s;
    Distribute(q, s, 1);
    Distribute(s, q, 2);
  }

  lemma TrialLow(b: nat, S: nat, t: nat, s1: nat, p: nat, q: nat)
    requires S <= s1 * p && s1 * q <= t && t * p <= b
    ensures S * q <= b
  {
    MulMono(q, S, s1 * p);
    MulSwap(1, q, s1, p);
    MulMono(p, s1 * q, t);
  }

  lemma TrialHigh(b: nat, S: nat, t: nat, s: nat, p: nat, q: nat)
    requires b < (t + 1) * p && t + 1 <= s * (q + 2) && s * p <= S
    ensures b < S * (q + 2)
  {
    MulMono(p, t + 1, s * (q + 2));
    MulSwap(1, p, s, q + 2);
    MulMono(q + 2, s * p, S);
  }

  /** Below ten times S the words of b do not outnumber those of S, and the trial quotient is a digit. */
  lemma TrialIsDigit(b: nat, S: nat, t: nat, s: nat, p: nat)
    requires p > 0 && 0x800_0000 <= s
    requires t * p <= b < 10 * S && S < (s + 1) * p
    ensures t / (s + 1) <= 9
  {
    if t >= 10 * (s + 1) {
      MulMono(p, 10 * (s + 1), t);
    }
    QuotientBelow(t, s + 1, 10);
  }

  lemma QuotientBelow(t: nat, d: nat, k: nat)
    requires d > 0 && t < k * d
    ensures t / d < k
  {
    var q := t / d;
    assert t == d * q + t % d;
    if q >= k {
      MulMono(d, k, q);
    }
  }

  /** What the scaling set-up gives the divisor: its top word has exactly 28 bits. */
  ghost predicate TopWord28(S: Bigint)
    requires S.Valid()
    reads S, S.x
  {
    S.wds > 0 && 0x800_0000 <= S.x[S.wds - 1] < 0x1000_0000
  }

  /** Words of b below ten times S: no more than those of S, whose top word has 28 bits. */
  lemma NotLonger(b: seq<Word>, S: seq<Word>)
    requires |S| > 0 && S[|S| - 1] < 0x1000_0000
    requires |b| <= 1 || b[|b| - 1] != 0
    requires Value(b) < 10 * Value(S)
    ensures |b| <= |S|
  {
    hide Weight, Value;
    if |b| > |S| {
      var n := |S|;
      ValueTop(S);
      TopWordWeighs(b);
      WeightMono(n, |b| - 1);
      WeightStep(n - 1);
      MulMono(Weight(n - 1), S[n - 1] + 1, 0x1000_0000);
      assert false;
    }
  }

  lemma WeightMono(i: nat, j: nat)
    requires i <= j
    ensures Weight(i) <= Weight(j)
  {
    PowMono(BASE, i, j);
  }

  function Trial(t: Word, s: Word): nat
  {
    t / (s + 1)
  }

  lemma TrialFacts(b: seq<Word>, S: seq<Word>, q: nat)
    requires |b| == |S| > 0 && 0x800_0000 <= S[|S| - 1]
    requires Value(b) < 10 * Value(S)
    requires q == Trial(b[|S| - 1], S[|S| - 1])
    ensures q <= 9 && Value(S) * q <= Value(b) < Value(S) * (q + 2)
  {
    hide Weight, Value;
    var n := |S|;
    ValueTop(S);
    ValueTop(b);
    TrialIsDigit(Value(b), Value(S), b[n - 1], S[n - 1], Weight(n - 1));
    TrialQuotient(Value(b), Value(S), b[n - 1], S[n - 1], Weight(n - 1), q);
  }

  /** A number at least S is not shorter than S. */
  lemma NotShorter(b: seq<Word>, S: seq<Word>)
    requires |S| > 0 && S[|S| - 1] != 0 && Value(b) >= Value(S)
    ensures |b| >= |S|
  {
    if |b| < |S| {
      TopWordWeighs(S);
      LongerIsLarger(S, b);
    }
  }

  /** The quotient digit of b by S; b keeps the remainder. */
  method Quorem(b: Bigint, S: Bigint) returns (q: nat)
    requires b.Ok() && S.Ok() && b != S && b.x != S.x && TopWord28(S)
    requires b.Value() < 10 * S.Value()
    modifies b`wds, b.x
    ensures b.Ok() && q <= 9
    ensures q == old(b.Value()) / S.Value() && b.Value() == old(b.Value()) % S.Value()
    ensures q > 0 ==> (b.wds == 0 <==> b.Value() == 0 && S.wds == 1)
  {
    hide Words.Value, Weight, Pow, Trial;
    ghost var bv, sv, ss := b.Value(), S.Value(), S.x[..S.wds];
    var n := S.wds;
    NotLonger(b.x[..b.wds], ss);
    if b.wds < n {
      if bv >= sv {
        NotShorter(b.x[..b.wds], ss);
      }
      QuotientIs(bv, sv, 0, bv);
      return 0;
    }
    n := n - 1;
    q := Trial(b.x[n], S.x[n]);
    TrialFacts(b.x[..b.wds], ss, q);
    if q != 0 {
      TakeAway(b, S, q);
      n := DropZeros(b, n);
    }
    var order := Cmp(b, S);
    if order >= 0 {
      NotShorter(b.x[..b.wds], ss);
      q := q + 1;
      TakeAway(b, S, 1);
      n := DropZeros(b, n);
    }
    Distribute(sv, q, 1);
    Distribute(sv, q, 2);
    QuotientIs(bv, sv, q, b.Value());
  }
}
