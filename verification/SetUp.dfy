/** The set-up of gdtoa's digit loop: powers of five, alignment, the correction of k, and the gaps. */
module SetUp {
  import opened Words
  import opened Bigints
  import opened Products
  import opened Shifts
  import opened BitCounts
  import opened PowersOfFive
  import opened Quorems
  import opened DigitLoop
  import opened Scaling

  /** A new number 5^e, from 1 and the cache. */
  method PowerOf5(e: nat, cache: PowerCache) returns (p: Bigint)
    requires cache.Valid()
    modifies cache
    ensures cache.Valid() && fresh(cache.Repr - old(cache.Repr))
    ensures fresh(p) && fresh(p.x) && p !in cache.Repr && p.x !in cache.Repr
    ensures p.Ok() && p.wds > 0 && p.Value() == Pow(5, e) && (e == 0 ==> p.wds == 1)
  {
    hide Words.Value, Pow;
    PowZero(1, 5);
    p := I2B(1);
    if e > 0 {
      p := cache.Pow5Mult(p, e);
      NonEmpty(p);
    }
  }

  /** b times 5^m5, and the powers 5^m5 and 5^s5 themselves. */
  method FivePowers(b0: Bigint, x: Exponents, cache: PowerCache) returns (b: Bigint, mhi: Bigint, S: Bigint)
    requires cache.Valid() && b0.Ok() && b0.Value() > 0
    modifies cache
    ensures cache.Valid() && fresh(cache.Repr - old(cache.Repr))
    ensures b.Ok() && mhi.Ok() && S.Ok() && S.wds > 0
    ensures (b == b0 || (fresh(b) && fresh(b.x))) && fresh(mhi) && fresh(mhi.x) && fresh(S) && fresh(S.x)
    ensures mhi != S && mhi.x != S.x && mhi !in cache.Repr && mhi.x !in cache.Repr
    ensures b.Value() == old(b0.Value()) * Pow(5, x.m5)
    ensures mhi.Value() == Pow(5, x.m5) && S.Value() == Pow(5, x.s5)
    ensures x.s5 == 0 ==> S.wds == 1
  {
    hide Words.Value, Pow, PowerCache.Valid;
    PowZero(b0.Value(), 5);
    b := b0;
    mhi := PowerOf5(x.m5, cache);
    if x.m5 > 0 {
      NonEmpty(b);
      b := Mult(mhi, b);
    }
    S := PowerOf5(x.s5, cache);
  }

  /** The number of bits in the top word of S; one when S is still one. */
  method TopBits(S: Bigint, s5: nat) returns (top: nat)
    requires S.Ok() && S.wds > 0 && S.Value() > 0 && (s5 == 0 ==> S.Value() == 1 && S.wds == 1)
    ensures 0 < top <= 32 && HasBits(S.Value(), 32 * (S.wds - 1) + top)
  {
    hide Words.Value, Weight, HasBits;
    if s5 == 0 {
      OneBit();
      return 1;
    }
    var w := S.x[S.wds - 1];
    if S.wds == 1 {
      ValueOne(S.x[..1]);
    }
    var h := Hi0Bits(w);
    BitsFromTop(S.x[..S.wds], h);
    top := 32 - h;
  }

  lemma OneBit()
    ensures HasBits(1, 1)
  {
  }

  lemma TopIs28(S: Bigint, n: nat)
    requires S.Ok() && S.wds > 0 && HasBits(S.Value(), n) && n % 32 == 28
    ensures TopWord28(S)
  {
    hide Words.Value, Weight, HasBits, Pow;
    var s, w := S.x[..S.wds], S.x[S.wds - 1];
    NonZeroBits(S.Value(), n);
    if S.wds == 1 {
      ValueOne(s);
    }
    var h := WordBits(w);
    BitsFromTop(s, h);
    HasBitsUnique(Words.Value(s), n, 32 * S.wds - h);
    Word28(w, h);
  }

  lemma Word28(w: Word, h: nat)
    requires h == 4 && HasBits(w, 32 - h)
    ensures 0x800_0000 <= w < 0x1000_0000
  {
    Pow2Of32();
    PowAdd(2, 28, 4);
    assert Pow(2, 4) == 16 && Pow(2, 28) == 2 * Pow(2, 27);
  }

  /** Every non-zero word has some number of bits. */
  lemma WordBits(w: Word) returns (h: nat)
    requires w > 0
    ensures h < 32 && HasBits(w, 32 - h)
  {
    h := 0;
    Pow2Of32();
    while w < Pow(2, 31 - h)
      invariant h < 32 && w < Pow(2, 32 - h)
      decreases 32 - h
    {
      h := h + 1;
    }
  }

  /** b and S brought in place, and k put right when it was one too large. */
  method Shifted(b0: Bigint, S0: Bigint, x: Exponents, ghost v: nat) returns (b: Bigint, S: Bigint)
    requires b0.Ok() && S0.Ok() && b0.Value() == v * Pow(5, x.m5) > 0 && S0.Value() == Pow(5, x.s5) && x.b2 > 0
    requires S0.wds > 0
    ensures fresh(b) && fresh(b.x) && (S == S0 || (fresh(S) && fresh(S.x))) && b != S && b.x != S.x
    ensures b.Ok() && S.Ok() && b.k >= 1 && S.wds > 0
    ensures b.Value() == Scaled(v, x.b2, x.m5) > 0 && S.Value() == Scaled(1, x.s2, x.s5) > 0
    ensures S.Value() == S0.Value() * Pow(2, x.s2)
  {
    hide Words.Value, Pow;
    NonEmpty(b0);
    Fives(v, x.b2, x.m5);
    Fives(1, x.s2, x.s5);
    Positive(b0.Value(), x.b2);
    Positive(S0.Value(), x.s2);
    PowZero(S0.Value(), 2);
    b := LShift(b0, x.b2);
    RoomMeansBits(b.k);
    S := S0;
    if x.s2 > 0 {
      S := LShift(S, x.s2);
    }
  }

  lemma Fives(v: nat, p: nat, q: nat)
    ensures (v * Pow(5, q)) * Pow(2, p) == Scaled(v, p, q)
  {
    MulAssoc(v, Pow(5, q), Pow(2, p));
  }

  lemma Positive(v: nat, p: nat)
    ensures v > 0 ==> v * Pow(2, p) > 0
  {
    NonZeroScaled(v, Pow(2, p));
  }

  lemma RoomMeansBits(k: nat)
    ensures Pow(2, k) >= 2 ==> k >= 1
  {
  }

  lemma TenScaled(v: nat, p: nat, q: nat)
    ensures Scaled(v, p, q) * 10 == Scaled(v, p + 1, q + 1)
  {
    ScaledMul(v, p, q, 1, 1);
    assert Pow(2, 1) * Pow(5, 1) == 10;
  }

  /** When b comes out below S the estimate of k was one too large: k goes down, b and the gap up. */
  method CorrectK(b0: Bigint, S: Bigint, mhi0: Bigint, k0: int, kCheck: bool,
                  ghost v: nat, ghost p: nat, ghost q: nat, ghost m5: nat)
    returns (b: Bigint, mhi: Bigint, k: int, ghost t: nat)
    requires b0.Ok() && S.Ok() && mhi0.Ok() && S.wds > 0
    requires b0 != S && b0.x != S.x && mhi0 != S && mhi0.x != S.x && b0 != mhi0 && b0.x != mhi0.x
    requires b0.Value() == Scaled(v, p, q) > 0 && mhi0.Value() == Scaled(1, 0, m5)
    requires b0.Value() < 10 * S.Value()
    requires if kCheck then S.Value() <= 10 * b0.Value() else S.Value() <= b0.Value()
    modifies b0, b0.x, mhi0, mhi0.x
    ensures t <= 1 && k == k0 - t && b.Ok() && mhi.Ok() && b.k >= b0.k
    ensures (b == b0 || (fresh(b) && fresh(b.x))) && (mhi == mhi0 || (fresh(mhi) && fresh(mhi.x)))
    ensures b != mhi && b.x != mhi.x
    ensures b.Value() == Scaled(v, p + t, q + t) && mhi.Value() == Scaled(1, t, m5 + t)
    ensures S.Value() <= b.Value() < 10 * S.Value()
  {
    hide Words.Value, Pow, Scaled;
    b, mhi, k, t := b0, mhi0, k0, 0;
    if kCheck {
      var order := Cmp(b, S);
      if order < 0 {
        TenScaled(v, p, q);
        TenScaled(1, 0, m5);
        NonEmpty(b);
        k, t := k - 1, 1;
        b := MultAdd(b, 10, 0);
        mhi := MultAdd(mhi, 10, 0);
      }
    }
  }

  lemma ShiftScaled(v: nat, p: nat, q: nat, d: nat)
    ensures Scaled(v, p, q) * Pow(2, d) == Scaled(v, p + d, q)
  {
    ScaledMul(v, p, q, d, 0);
    assert Pow(5, 0) == 1;
  }

  /** The gaps below and above: one number, unless the mantissa is a power of two, where the gap
      above is twice the gap below. */
  method Gaps(m0: Bigint, m2: nat, spec: bool, ghost t: nat, ghost q: nat) returns (mlo: Bigint, mhi: Bigint)
    requires m0.Ok() && m0.Value() == Scaled(1, t, q)
    ensures mlo.Ok() && mhi.Ok() && (mlo == mhi <==> !spec) && (mlo != mhi ==> mlo.x != mhi.x)
    ensures mlo == m0 || (fresh(mlo) && fresh(mlo.x))
    ensures mhi == m0 || (fresh(mhi) && fresh(mhi.x))
    ensures mlo.Value() == Scaled(1, t + m2, q) > 0
    ensures mhi.Value() == if spec then Scaled(1, t + m2 + 1, q) else mlo.Value()
  {
    hide Words.Value, Pow;
    hide Scaled;
    ShiftScaled(1, t, q, 0);
    ShiftScaled(1, t, q, m2);
    ShiftScaled(1, t + m2, q, 1);
    ScaledPositive(t, q);
    ScaledPositive(t + m2, q);
    NonEmpty(m0);
    mhi := m0;
    if m2 > 0 {
      mhi := LShift(mhi, m2);
    }
    mlo := mhi;
    if spec {
      mhi := new Bigint.Balloc(mlo.k);
      Bcopy(mhi, mlo);
      NonEmpty(mlo);
      SameWords(mhi, mlo);
      mhi := LShift(mhi, 1);
    }
  }

  lemma SameWords(a: Bigint, b: Bigint)
    requires a.Valid() && b.Ok() && a.wds == b.wds > 0 && a.x[..a.wds] == b.x[..b.wds]
    ensures a.Ok() && a.Value() == b.Value()
  {
    assert a.x[a.wds - 1] == a.x[..a.wds][a.wds - 1] == b.x[..b.wds][b.wds - 1];
  }

  lemma ScaledPositive(p: nat, q: nat)
    ensures Scaled(1, p, q) > 0
  {
    NonZeroScaled(Pow(2, p), Pow(5, q));
  }

  lemma RatioBelowTen(b: nat, S: nat, v: nat, e: int, k: int)
    requires Ratio(b, S, v, e, k) && S > 0
    ensures Num(v, e, k) < 10 * Den(e, k) ==> b < 10 * S
    ensures Den(e, k) <= 10 * Num(v, e, k) ==> S <= 10 * b
    ensures Den(e, k) <= Num(v, e, k) ==> S <= b
  {
    hide Num, Den;
    CrossCompare(b, S, Num(v, e, k), Den(e, k));
  }

  lemma CrossCompare(b: nat, S: nat, n: nat, d: nat)
    requires b * d == S * n && S > 0 && d > 0
    ensures n < 10 * d ==> b < 10 * S
    ensures d <= 10 * n ==> S <= 10 * b
    ensures d <= n ==> S <= b
  {
    OrderScales(b, 10 * S, d);
    OrderScales(S, 10 * b, d);
    OrderScales(S, b, d);
    OrderScales(n, 10 * d, S);
    OrderScales(d, 10 * n, S);
    OrderScales(d, n, S);
    assert (10 * S) * d == S * (10 * d) && (10 * b) * d == S * (10 * n);
  }

  /** S is at most twice 2^nbits gaps, so few digits are enough. */
  lemma GapNotSmall(v: nat, bbits: nat, nbits: nat, d: nat, p: nat, q: nat, S: nat)
    requires HasBits(v, bbits) && bbits <= nbits && S <= Scaled(v, p + d, q)
    requires d <= nbits - bbits + 1 || (bbits == 1 && d <= nbits + 1)
    ensures S <= 2 * (Scaled(1, p, q) * Pow(2, nbits))
  {
    ShiftScaled(v, p, q, d);
    assert Scaled(v, p, q) == v * Scaled(1, p, q);
    BitsTimesPower(v, bbits, nbits, d);
    hide Pow, Scaled;
    GapAlgebra(v, Scaled(1, p, q), Pow(2, d), Pow(2, nbits));
  }

  lemma BitsTimesPower(v: nat, bbits: nat, nbits: nat, d: nat)
    requires HasBits(v, bbits) && bbits <= nbits
    requires d <= nbits - bbits + 1 || (bbits == 1 && d <= nbits + 1)
    ensures v * Pow(2, d) <= 2 * Pow(2, nbits)
  {
    if bbits == 1 {
      assert v == 1;
      PowMono(2, d, nbits + 1);
    } else {
      PowAdd(2, bbits, d);
      PowMono(2, bbits + d, nbits + 1);
      MulMono(Pow(2, d), v, Pow(2, bbits));
    }
  }

  lemma GapAlgebra(v: nat, m: nat, d: nat, n: nat)
    requires v * d <= 2 * n
    ensures (v * m) * d <= 2 * (m * n)
  {
    MulMono(m, v * d, 2 * n);
    MulAssoc(v, m, d);
    MulAssoc(v, d, m);
  }

  /** What the digit loop starts from, for v 2^be: v 2^be / 10^k is b/S, between 1 and 10, and half a unit
      in the last place, 2^he, is the gap above; the gap below is the same or, for a power of two, half of it. */
  ghost predicate Prepared(b: nat, S: nat, mlo: nat, mhi: nat, k: int, v: nat, be: int, he: int, spec: bool)
  {
    0 < S <= b < 10 * S && Ratio(b, S, v, be, k) && Ratio(mhi, S, 1, he, k) &&
    0 < mlo && mhi == (if spec then 2 * mlo else mlo)
  }

  lemma PreparedIs(v: nat, be: int, he: int, k0: int, x: Exponents, t: nat, spec: bool, b: nat, S: nat, mlo: nat,
                   mhi: nat)
    requires x.b2 - x.s2 == be - k0 && x.m5 - x.s5 == -k0
    requires x.m2 - x.s2 == he - k0 - (if spec then 1 else 0)
    requires b == Scaled(v, x.b2 + t, x.m5 + t) && S == Scaled(1, x.s2, x.s5)
    requires mlo == Scaled(1, t + x.m2, x.m5 + t) > 0
    requires mhi == if spec then Scaled(1, t + x.m2 + 1, x.m5 + t) else mlo
    requires 0 < S <= b < 10 * S
    ensures Prepared(b, S, mlo, mhi, k0 - t, v, be, he, spec) && mlo <= mhi
  {
    ShiftScaled(1, t + x.m2, x.m5 + t, 1);
    assert Pow(2, 1) == 2;
    hide Scaled, Pow;
    ExponentsGiveRatio(v, be, k0 - t, x.b2 + t, x.m5 + t, x.s2, x.s5);
    ExponentsGiveRatio(1, he, k0 - t, if spec then t + x.m2 + 1 else t + x.m2, x.m5 + t, x.s2, x.s5);
  }

  lemma PreparedWithRoom(v: nat, be: int, he: int, k0: int, x: Exponents, t: nat, spec: bool,
                         b: nat, S: nat, mlo: nat, mhi: nat, bbits: nat, nbits: nat)
    requires x.b2 - x.s2 == be - k0 && x.m5 - x.s5 == -k0
    requires x.m2 - x.s2 == he - k0 - (if spec then 1 else 0)
    requires b == Scaled(v, x.b2 + t, x.m5 + t) && S == Scaled(1, x.s2, x.s5)
    requires mlo == Scaled(1, t + x.m2, x.m5 + t) > 0
    requires mhi == if spec then Scaled(1, t + x.m2 + 1, x.m5 + t) else mlo
    requires 0 < S <= b < 10 * S
    requires HasBits(v, bbits) && bbits <= nbits && (spec ==> bbits == 1)
    requires 0 <= x.b2 - x.m2 <= nbits - bbits + 1 + (if spec then 1 else 0)
    ensures Prepared(b, S, mlo, mhi, k0 - t, v, be, he, spec) && mlo <= mhi
    ensures S <= 2 * (mlo * Pow(2, nbits))
  {
    hide Scaled, Pow, HasBits, Prepared;
    PreparedIs(v, be, he, k0, x, t, spec, b, S, mlo, mhi);
    GapNotSmall(v, bbits, nbits, x.b2 - x.m2, x.m2 + t, x.m5 + t, S);
  }

  /** The estimate k is floor(log10(v 2^be)) or, when it is still to be checked, at most one too large. */
  ghost predicate GoodEstimate(v: nat, be: int, k: int, kCheck: bool)
  {
    Num(v, be, k) < 10 * Den(be, k) &&
    if kCheck then Den(be, k) <= 10 * Num(v, be, k) else Den(be, k) <= Num(v, be, k)
  }

  lemma WholeWordsAside(w: nat, n: nat)
    ensures (32 * w + n) % 32 == n % 32
  {
  }

  /** b and S shifted left by as much as leaves S's top word with 28 bits, and the common shift. */
  method ShiftToAlign(b0: Bigint, S0: Bigint, x0: Exponents, ghost v: nat) returns (b: Bigint, S: Bigint, x: Exponents)
    requires b0.Ok() && S0.Ok() && S0.wds > 0 && x0.b2 > 0 && (x0.s5 == 0 ==> S0.wds == 1)
    requires b0.Value() == v * Pow(5, x0.m5) > 0 && S0.Value() == Pow(5, x0.s5)
    ensures fresh(b) && fresh(b.x) && (S == S0 || (fresh(S) && fresh(S.x))) && b != S && b.x != S.x
    ensures b.Ok() && S.Ok() && b.k >= 1 && TopWord28(S) && S.wds > 0
    ensures x.s5 == x0.s5 && x.m5 == x0.m5 && x.b2 - x0.b2 == x.m2 - x0.m2 == x.s2 - x0.s2 >= 0
    ensures b.Value() == Scaled(v, x.b2, x.m5) > 0 && S.Value() == Scaled(1, x.s2, x.s5) > 0
  {
    hide Words.Value, Pow, HasBits, Scaled, TopWord28;
    OnePower(x0.s5);
    var top := TopBits(S0, x0.s5);
    x := Align(x0, top);
    ghost var n := 32 * (S0.wds - 1) + top;
    HasBitsShift(S0.Value(), n, x.s2);
    WholeWordsAside(S0.wds - 1, top + x.s2);
    b, S := Shifted(b0, S0, x, v);
    TopIs28(S, n + x.s2);
  }

  /** b, the gap and S as powers of five, then b and S shifted so that S's top word has 28 bits. */
  method Divisor(b0: Bigint, x0: Exponents, cache: PowerCache)
    returns (b: Bigint, m: Bigint, S: Bigint, x: Exponents)
    requires cache.Valid() && b0.Ok() && b0.Value() > 0 && x0.b2 > 0
    modifies cache
    ensures cache.Valid() && fresh(cache.Repr - old(cache.Repr))
    ensures fresh(b) && fresh(b.x) && fresh(m) && fresh(m.x) && fresh(S) && fresh(S.x)
    ensures b !in cache.Repr && b.x !in cache.Repr && m !in cache.Repr && m.x !in cache.Repr
    ensures b.Ok() && m.Ok() && S.Ok() && b.k >= 1 && TopWord28(S) && S.wds > 0
    ensures b != m && b.x != m.x && b != S && b.x != S.x && m != S && m.x != S.x
    ensures x.s5 == x0.s5 && x.m5 == x0.m5 && x.b2 - x0.b2 == x.m2 - x0.m2 == x.s2 - x0.s2 >= 0
    ensures b.Value() == Scaled(old(b0.Value()), x.b2, x.m5) > 0
    ensures S.Value() == Scaled(1, x.s2, x.s5) > 0 && m.Value() == Scaled(1, 0, x.m5)
  {
    hide Words.Value, Pow, HasBits, Scaled, TopWord28, PowerCache.Valid;
    ghost var v := b0.Value();
    b, m, S := FivePowers(b0, x0, cache);
    OnePower(x0.m5);
    PositiveProduct(v, x0.m5);
    b, S, x := ShiftToAlign(b, S, x0, v);
  }

  lemma OnePower(q: nat)
    ensures Pow(5, q) == Scaled(1, 0, q) > 0 && Pow(5, 0) == 1
  {
  }

  lemma PositiveProduct(v: nat, q: nat)
    requires v > 0
    ensures v * Pow(5, q) > 0
  {
    NonZeroScaled(v, Pow(5, q));
  }

  /** b over S between 1 and 10, for a good estimate k0 of the decimal exponent. */
  method Quotient(b0: Bigint, be: int, x0: Exponents, k0: int, kCheck: bool, cache: PowerCache)
    returns (b: Bigint, m: Bigint, S: Bigint, x: Exponents, k: int, ghost t: nat)
    requires cache.Valid() && b0.Ok() && b0.Value() > 0 && x0.b2 > 0
    requires x0.b2 - x0.s2 == be - k0 && x0.m5 - x0.s5 == -k0
    requires GoodEstimate(b0.Value(), be, k0, kCheck)
    modifies cache
    ensures cache.Valid() && fresh(cache.Repr - old(cache.Repr))
    ensures fresh(b) && fresh(b.x) && fresh(m) && fresh(m.x) && fresh(S) && fresh(S.x)
    ensures b !in cache.Repr && b.x !in cache.Repr && m !in cache.Repr && m.x !in cache.Repr
    ensures b.Ok() && m.Ok() && S.Ok() && b.k >= 1 && TopWord28(S)
    ensures b != m && b.x != m.x && b != S && b.x != S.x && m != S && m.x != S.x
    ensures x.s5 == x0.s5 && x.m5 == x0.m5 && x.b2 - x0.b2 == x.m2 - x0.m2 == x.s2 - x0.s2 >= 0
    ensures t <= 1 && k == k0 - t && 0 < S.Value() <= b.Value() < 10 * S.Value()
    ensures b.Value() == Scaled(old(b0.Value()), x.b2 + t, x.m5 + t)
    ensures S.Value() == Scaled(1, x.s2, x.s5) && m.Value() == Scaled(1, t, x.m5 + t)
  {
    hide Words.Value, Pow, Scaled, Ratio, Num, Den, TopWord28;
    ghost var v := b0.Value();
    b, m, S, x := Divisor(b0, x0, cache);
    ExponentsGiveRatio(v, be, k0, x.b2, x.m5, x.s2, x.s5);
    RatioBelowTen(b.Value(), S.Value(), v, be, k0);
    b, m, k, t := CorrectK(b, S, m, k0, kCheck, v, x.b2, x.m5, x.m5);
  }

  /** The exponents before alignment; a power of two above the smallest gets one bit more. */
  method ChooseWithSpare(be: int, be0: int, bbits: nat, nbits: nat, emin: int, k: int)
    returns (x: Exponents, spec: bool)
    requires 0 < bbits <= nbits && emin <= be
    ensures spec == (bbits == 1 && be0 > emin + 1)
    ensures x.b2 - x.s2 == be - k && x.m5 - x.s5 == -k
    ensures x.m2 - x.s2 == HalfUlp(be, bbits, nbits, emin) - k - (if spec then 1 else 0)
    ensures 0 < x.b2 - x.m2 <= nbits - bbits + 1 + (if spec then 1 else 0)
  {
    x := ChooseExponents(be, bbits, nbits, emin, k);
    spec := bbits == 1 && be0 > emin + 1;
    if spec {
      x := x.(b2 := x.b2 + 1, s2 := x.s2 + 1);
    }
  }

  /** From the odd part of the number, v 2^be with bbits bits, to the digit loop. */
  method Prepare(b0: Bigint, be: int, be0: int, bbits: nat, nbits: nat, emin: int, k0: int, kCheck: bool,
                 cache: PowerCache)
    returns (b: Bigint, S: Bigint, mlo: Bigint, mhi: Bigint, k: int)
    requires cache.Valid() && b0.Ok() && HasBits(b0.Value(), bbits) && bbits <= nbits
    requires emin <= be0 <= be && GoodEstimate(b0.Value(), be, k0, kCheck)
    modifies cache
    ensures cache.Valid() && fresh(cache.Repr - old(cache.Repr))
    ensures Ready(b, S, mlo, mhi)
    ensures fresh(b) && fresh(b.x) && fresh(mlo) && fresh(mlo.x) && fresh(mhi) && fresh(mhi.x)
    ensures fresh(S) && fresh(S.x) && {b, b.x, mlo, mlo.x, mhi, mhi.x} !! cache.Repr
    ensures Prepared(b.Value(), S.Value(), mlo.Value(), mhi.Value(), k, old(b0.Value()), be,
                     HalfUlp(be, bbits, nbits, emin), bbits == 1 && be0 > emin + 1)
    ensures S.Value() <= 2 * (mlo.Value() * Pow(2, nbits))
  {
    hide Words.Value, Pow, Scaled, HasBits, Ratio, Num, Den, TopWord28, Prepared, GoodEstimate, HalfUlp;
    hide PowerCache.Valid;
    hide Bigint.Normal;
    ghost var v, he := b0.Value(), HalfUlp(be, bbits, nbits, emin);
    NonZeroBits(v, bbits);
    var x, spec := ChooseWithSpare(be, be0, bbits, nbits, emin, k0);
    var m;
    ghost var t;
    b, m, S, x, k, t := Quotient(b0, be, x, k0, kCheck, cache);
    mlo, mhi := Gaps(m, x.m2, spec, t, x.m5 + t);
    PreparedWithRoom(v, be, he, k0, x, t, spec, b.Value(), S.Value(), mlo.Value(), mhi.Value(), bbits, nbits);
  }
}
